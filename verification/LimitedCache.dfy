/** A map that holds fewer entries than its capacity and evicts the oldest insertion. */
module LimitedCache {
  import opened Prelude

  // ---- reference: entries in order of insertion ----

  datatype Entry<K, V> = Entry(key: K, value: V)

  predicate Distinct<K(==), V>(entries: seq<Entry<K, V>>) {
    forall i, j :: 0 <= i < j < |entries| ==> entries[i].key != entries[j].key
  }

  /** The position of a key, or the length when it is absent. */
  function Find<K(==), V>(entries: seq<Entry<K, V>>, k: K): (i: nat)
    ensures i <= |entries|
    ensures i < |entries| ==> entries[i].key == k
    ensures forall j :: 0 <= j < i ==> entries[j].key != k
  {
    if entries == [] || entries[0].key == k then 0
    else
      var i := Find(entries[1..], k);
      assert forall j :: 0 < j < i + 1 ==> entries[j] == entries[1..][j - 1];
      1 + i
  }

  function Lookup<K(==), V>(entries: seq<Entry<K, V>>, k: K): Option<V> {
    var i := Find(entries, k);
    if i < |entries| then Some(entries[i].value) else None
  }

  function Drop<T>(s: seq<T>, i: nat): seq<T>
    requires i < |s|
  {
    s[..i] + s[i + 1..]
  }

  function Without<K(==), V>(entries: seq<Entry<K, V>>, k: K): seq<Entry<K, V>> {
    var i := Find(entries, k);
    if i < |entries| then Drop(entries, i) else entries
  }

  /** A present key keeps its place; a new key goes last, and the first entry leaves when the
      capacity is reached. `choose` gives the new value from the present one, if any. */
  function Put<K(==), V>(entries: seq<Entry<K, V>>, capacity: nat, k: K, choose: Option<V> -> V): seq<Entry<K, V>> {
    var i := Find(entries, k);
    if i < |entries| then entries[i := Entry(k, choose(Some(entries[i].value)))]
    else
      var more := entries + [Entry(k, choose(None))];
      if |more| == capacity then more[1..] else more
  }

  lemma FindUnique<K, V>(entries: seq<Entry<K, V>>, k: K, i: nat)
    requires Distinct(entries) && i < |entries| && entries[i].key == k
    ensures Find(entries, k) == i
  {
  }

  lemma FindAbsent<K, V>(entries: seq<Entry<K, V>>, k: K)
    requires forall i :: 0 <= i < |entries| ==> entries[i].key != k
    ensures Find(entries, k) == |entries|
  {
  }

  lemma PutPresent<K, V>(entries: seq<Entry<K, V>>, capacity: nat, k: K, choose: Option<V> -> V, j: K)
    requires Distinct(entries) && Find(entries, k) < |entries|
    ensures Lookup(Put(entries, capacity, k, choose), j) ==
            if j == k then Some(choose(Lookup(entries, k))) else Lookup(entries, j)
  {
    var i, after, at := Find(entries, k), Put(entries, capacity, k, choose), Find(entries, j);
    assert forall n :: 0 <= n < |after| ==> after[n].key == entries[n].key;
    if at < |entries| {
      FindUnique(after, j, at);
    } else {
      FindAbsent(after, j);
    }
  }

  lemma LookupAppend<K, V>(entries: seq<Entry<K, V>>, e: Entry<K, V>, j: K)
    requires Distinct(entries) && Find(entries, e.key) == |entries|
    ensures Distinct(entries + [e])
    ensures Lookup(entries + [e], j) == if j == e.key then Some(e.value) else Lookup(entries, j)
  {
    var more, at := entries + [e], Find(entries, j);
    if j == e.key {
      FindUnique(more, j, |entries|);
    } else if at < |entries| {
      FindUnique(more, j, at);
    } else {
      FindAbsent(more, j);
    }
  }

  lemma LookupRest<K, V>(entries: seq<Entry<K, V>>, j: K)
    requires Distinct(entries) && entries != []
    ensures Lookup(entries[1..], j) == if j == entries[0].key then None else Lookup(entries, j)
  {
    var rest, at := entries[1..], Find(entries, j);
    assert forall n :: 0 <= n < |rest| ==> rest[n] == entries[n + 1];
    if at == |entries| || at == 0 {
      FindAbsent(rest, j);
    } else {
      FindUnique(rest, j, at - 1);
    }
  }

  lemma PutAbsent<K, V>(entries: seq<Entry<K, V>>, capacity: nat, k: K, choose: Option<V> -> V, j: K)
    requires Distinct(entries) && Find(entries, k) == |entries|
    ensures
      var r := Lookup(Put(entries, capacity, k, choose), j);
      if |entries| + 1 == capacity && j == (if entries == [] then k else entries[0].key) then r == None
      else r == if j == k then Some(choose(None)) else Lookup(entries, j)
  {
    var more := entries + [Entry(k, choose(None))];
    LookupAppend(entries, Entry(k, choose(None)), j);
    assert more[0].key == if entries == [] then k else entries[0].key;
    if |more| == capacity {
      LookupRest(more, j);
    }
  }

  /** As a map: putting a key gives the chosen value for it and leaves every other key as it was, but for the
      oldest when a new key fills the cache. */
  lemma LookupAfterPut<K, V>(entries: seq<Entry<K, V>>, capacity: nat, k: K, choose: Option<V> -> V, j: K)
    requires Distinct(entries)
    ensures
      var r, present := Lookup(Put(entries, capacity, k, choose), j), Find(entries, k) < |entries|;
      if !present && |entries| + 1 == capacity && j == (if entries == [] then k else entries[0].key) then r == None
      else r == if j == k then Some(choose(Lookup(entries, k))) else Lookup(entries, j)
  {
    if Find(entries, k) < |entries| {
      PutPresent(entries, capacity, k, choose, j);
    } else {
      PutAbsent(entries, capacity, k, choose, j);
    }
  }

  /** As a map: removing a key leaves exactly the others. */
  lemma LookupAfterRemove<K, V>(entries: seq<Entry<K, V>>, k: K, j: K)
    requires Distinct(entries)
    ensures Lookup(Without(entries, k), j) == if j == k then None else Lookup(entries, j)
  {
    var i, after, at := Find(entries, k), Without(entries, k), Find(entries, j);
    if i < |entries| {
      assert forall n :: 0 <= n < |after| ==> after[n] == entries[if n < i then n else n + 1];
      if j == k || at == |entries| {
        FindAbsent(after, j);
      } else {
        FindUnique(after, j, if at < i then at else at - 1);
      }
    }
  }

  // ---- the two collections of the implementation ----

  /** The order queue is duplicate-free and lists exactly the map's keys. */
  ghost predicate Linked<K(!new), V>(oldest: seq<K>, items: map<K, V>) {
    && (forall i, j :: 0 <= i < j < |oldest| ==> oldest[i] != oldest[j])
    && (forall k :: k in items <==> k in oldest)
  }

  ghost function View<K(!new), V>(oldest: seq<K>, items: map<K, V>): (r: seq<Entry<K, V>>)
    requires Linked(oldest, items)
    ensures |r| == |oldest| && forall i :: 0 <= i < |r| ==> r[i] == Entry(oldest[i], items[oldest[i]])
  {
    seq(|oldest|, i requires 0 <= i < |oldest| && Linked(oldest, items) => Entry(oldest[i], items[oldest[i]]))
  }

  lemma ViewFinds<K(!new), V>(oldest: seq<K>, items: map<K, V>, k: K)
    requires Linked(oldest, items)
    ensures
      var i := Find(View(oldest, items), k);
      if k in items then i < |oldest| && oldest[i] == k else i == |oldest|
  {
    var view := View(oldest, items);
    var i := Find(view, k);
    if i < |oldest| {
      assert view[i] == Entry(oldest[i], items[oldest[i]]);
    } else {
      assert forall j :: 0 <= j < |oldest| ==> view[j].key == oldest[j];
    }
  }

  lemma UpdateView<K(!new), V>(oldest: seq<K>, items: map<K, V>, k: K, capacity: nat, choose: Option<V> -> V)
    requires Linked(oldest, items) && k in items
    ensures
      var after := items[k := choose(Some(items[k]))];
      Linked(oldest, after) && View(oldest, after) == Put(View(oldest, items), capacity, k, choose)
  {
    ViewFinds(oldest, items, k);
    var view, i := View(oldest, items), Find(View(oldest, items), k);
    var after := items[k := choose(Some(items[k]))];
    assert view[i].value == items[k];
    assert View(oldest, after) == view[i := Entry(k, after[k])];
  }

  lemma DropMembers<K>(oldest: seq<K>, index: nat, x: K)
    requires index < |oldest| && forall i, j :: 0 <= i < j < |oldest| ==> oldest[i] != oldest[j]
    ensures x in Drop(oldest, index) <==> x in oldest && x != oldest[index]
  {
    var order := Drop(oldest, index);
    assert oldest == oldest[..index] + [oldest[index]] + oldest[index + 1..];
    if x in order {
      var j :| 0 <= j < |order| && order[j] == x;
      assert order[j] == oldest[if j < index then j else j + 1];
    }
  }

  lemma DropView<K(!new), V>(oldest: seq<K>, items: map<K, V>, index: nat)
    requires Linked(oldest, items) && index < |oldest|
    ensures
      var order, after := Drop(oldest, index), items - {oldest[index]};
      Linked(order, after) && View(order, after) == Drop(View(oldest, items), index)
  {
    var order, after := Drop(oldest, index), items - {oldest[index]};
    forall x
      ensures x in after <==> x in order
    {
      DropMembers(oldest, index, x);
    }
    assert forall j :: 0 <= j < |order| ==> order[j] == oldest[if j < index then j else j + 1];
    assert Linked(order, after);
    assert View(order, after) == Drop(View(oldest, items), index);
  }

  lemma InsertView<K(!new), V>(oldest: seq<K>, items: map<K, V>, k: K, capacity: nat, choose: Option<V> -> V)
    requires Linked(oldest, items) && k !in items
    ensures
      var order, after := oldest + [k], items[k := choose(None)];
      && Linked(order, after)
      && (|order| != capacity ==> View(order, after) == Put(View(oldest, items), capacity, k, choose))
      && (|order| == capacity ==>
            && Linked(order[1..], after - {order[0]})
            && View(order[1..], after - {order[0]}) == Put(View(oldest, items), capacity, k, choose))
  {
    ViewFinds(oldest, items, k);
    var order, after := oldest + [k], items[k := choose(None)];
    var more := View(oldest, items) + [Entry(k, choose(None))];
    assert View(order, after) == more;
    DropView(order, after, 0);
    assert Drop(order, 0) == order[1..] && Drop(more, 0) == more[1..];
  }

  lemma RemoveView<K(!new), V>(oldest: seq<K>, items: map<K, V>, k: K, index: nat)
    requires Linked(oldest, items) && index < |oldest| && oldest[index] == k
    ensures
      var order, after := Drop(oldest, index), items - {k};
      Linked(order, after) && View(order, after) == Without(View(oldest, items), k)
  {
    ViewFinds(oldest, items, k);
    DropView(oldest, items, index);
  }

  class Cache<K(!new, ==), V(!new)> {
    var items: map<K, V>
    var oldest: seq<K>
    var capacity: nat
    const grow: nat -> nat

    /** `grow` gives the capacity of an order queue that was full and had to make room. */
    constructor (capacity: nat, grow: nat -> nat)
      requires grow(0) > 0
      ensures Valid() && Entries() == [] && this.capacity == capacity && this.grow == grow
    {
      items, oldest, this.capacity, this.grow := map[], [], capacity, grow;
    }

    /** The queue and the map agree, and the queue is always below capacity. */
    ghost predicate Valid()
      reads this
    {
      && Linked(oldest, items)
      && grow(0) > 0
      && (|oldest| < capacity || (capacity == 0 && oldest == []))
    }

    ghost function Entries(): seq<Entry<K, V>>
      requires Valid()
      reads this
    {
      View(oldest, items)
    }

    /** The capacity in force for the next insertion of a new key. */
    function Room(): nat
      reads this
    {
      if capacity == |oldest| then grow(capacity) else capacity
    }

    method PushOldest(k: K)
      modifies this`oldest, this`capacity
      ensures oldest == old(oldest) + [k] && capacity == old(Room())
    {
      if capacity == |oldest| {
        capacity := grow(capacity);
      }
      oldest := oldest + [k];
    }

    method EvictIfFull()
      modifies this
      ensures capacity == old(capacity)
      ensures old(oldest) != [] && |old(oldest)| == capacity ==>
                oldest == old(oldest)[1..] && items == old(items) - {old(oldest)[0]}
      ensures !(old(oldest) != [] && |old(oldest)| == capacity) ==> oldest == old(oldest) && items == old(items)
    {
      if capacity == |oldest| {
        if oldest != [] {
          var first := oldest[0];
          oldest := oldest[1..];
          items := items - {first};
        }
      }
    }

    method GetOrInsertDefaultAndEdit(k: K, default: V, edit: V -> V)
      requires Valid()
      modifies this
      ensures Valid() && capacity == if k in old(items) then old(capacity) else old(Room())
      ensures Entries() == Put(old(Entries()), old(Room()), k, (o: Option<V>) => edit(if o.Some? then o.value else default))
    {
      ghost var choose := (o: Option<V>) => edit(if o.Some? then o.value else default);
      if k in items {
        UpdateView(oldest, items, k, Room(), choose);
        items := items[k := edit(items[k])];
      } else {
        InsertView(oldest, items, k, Room(), choose);
        PushOldest(k);
        items := items[k := edit(default)];
        EvictIfFull();
      }
    }

    method Insert(k: K, v: V)
      requires Valid()
      modifies this
      ensures Valid() && capacity == if k in old(items) then old(capacity) else old(Room())
      ensures Entries() == Put(old(Entries()), old(Room()), k, (_: Option<V>) => v)
    {
      ghost var choose := (_: Option<V>) => v;
      if k in items {
        UpdateView(oldest, items, k, Room(), choose);
        items := items[k := v];
      } else {
        InsertView(oldest, items, k, Room(), choose);
        PushOldest(k);
        items := items[k := v];
        EvictIfFull();
      }
    }

    method Get(k: K) returns (r: Option<V>)
      requires Valid()
      ensures r == Lookup(Entries(), k)
    {
      ViewFinds(oldest, items, k);
      r := if k in items then Some(items[k]) else None;
    }

    /** The first place of a key in the order queue, or its length. */
    method Position(k: K) returns (index: nat)
      ensures index <= |oldest| && k !in oldest[..index] && (index < |oldest| ==> oldest[index] == k)
    {
      index := 0;
      while index < |oldest| && oldest[index] != k
        invariant 0 <= index <= |oldest| && k !in oldest[..index]
      {
        index := index + 1;
      }
    }

    method Remove(k: K) returns (r: Option<V>)
      requires Valid()
      modifies this
      ensures Valid() && capacity == old(capacity)
      ensures r == Lookup(old(Entries()), k)
      ensures Entries() == Without(old(Entries()), k)
    {
      ViewFinds(oldest, items, k);
      if k !in items {
        return None;
      }
      r := Some(items[k]);
      items := items - {k};
      var index := Position(k);
      if index < |oldest| {
        RemoveView(oldest, old(items), k, index);
        oldest := oldest[..index] + oldest[index + 1..];
      }
    }
  }

  // ---- runs ----

  datatype Op<!K, !V> = PutKey(key: K, choose: Option<V> -> V) | RemoveKey(key: K)

  /** Each entry with the number of the insertion that created it. */
  datatype Ledger<K, V> = Ledger(entries: seq<Entry<K, V>>, births: seq<nat>, clock: nat)

  function Step<K(==), V>(l: Ledger<K, V>, op: Op<K, V>, capacity: nat): Ledger<K, V>
    requires |l.births| == |l.entries|
  {
    var i := Find(l.entries, op.key);
    match op
    case PutKey(k, choose) =>
      var entries := Put(l.entries, capacity, k, choose);
      if i < |l.entries| then l.(entries := entries)
      else
        var births := l.births + [l.clock];
        Ledger(entries, if |births| == capacity then births[1..] else births, l.clock + 1)
    case RemoveKey(k) =>
      Ledger(Without(l.entries, k), if i < |l.entries| then Drop(l.births, i) else l.births, l.clock)
  }

  /** Distinct keys in order of birth, below capacity. */
  predicate Ordered<K(==), V>(l: Ledger<K, V>, capacity: nat) {
    && |l.births| == |l.entries| < capacity
    && Distinct(l.entries)
    && Rising(l.births, l.clock)
  }

  lemma AppendDistinct<K, V>(entries: seq<Entry<K, V>>, e: Entry<K, V>)
    requires Distinct(entries) && forall i :: 0 <= i < |entries| ==> entries[i].key != e.key
    ensures Distinct(entries + [e])
    ensures Distinct((entries + [e])[1..])
  {
    var more := entries + [e];
    assert forall i :: 0 <= i < |more[1..]| ==> more[1..][i] == more[i + 1];
  }

  predicate Rising(births: seq<nat>, clock: nat) {
    && (forall i, j :: 0 <= i < j < |births| ==> births[i] < births[j])
    && (forall i :: 0 <= i < |births| ==> births[i] < clock)
  }

  lemma AppendRising(births: seq<nat>, clock: nat)
    requires Rising(births, clock)
    ensures Rising(births + [clock], clock + 1)
    ensures Rising((births + [clock])[1..], clock + 1)
  {
    var more := births + [clock];
    assert forall i :: 0 <= i < |more[1..]| ==> more[1..][i] == more[i + 1];
  }

  lemma PutOrdered<K, V>(l: Ledger<K, V>, k: K, choose: Option<V> -> V, capacity: nat)
    requires Ordered(l, capacity)
    ensures Ordered(Step(l, PutKey(k, choose), capacity), capacity)
  {
    if Find(l.entries, k) == |l.entries| {
      AppendDistinct(l.entries, Entry(k, choose(None)));
      AppendRising(l.births, l.clock);
    }
  }

  lemma DropDistinct<K, V>(entries: seq<Entry<K, V>>, i: nat)
    requires i < |entries| && Distinct(entries)
    ensures Distinct(Drop(entries, i))
  {
    var rest := Drop(entries, i);
    assert forall j :: 0 <= j < |rest| ==> rest[j] == entries[if j < i then j else j + 1];
  }

  lemma DropRising(births: seq<nat>, i: nat, clock: nat)
    requires i < |births| && Rising(births, clock)
    ensures Rising(Drop(births, i), clock)
  {
    var rest := Drop(births, i);
    assert forall j :: 0 <= j < |rest| ==> rest[j] == births[if j < i then j else j + 1];
  }

  lemma StepOrdered<K, V>(l: Ledger<K, V>, op: Op<K, V>, capacity: nat)
    requires Ordered(l, capacity)
    ensures Ordered(Step(l, op, capacity), capacity)
  {
    if op.PutKey? {
      PutOrdered(l, op.key, op.choose, capacity);
    } else if Find(l.entries, op.key) < |l.entries| {
      DropDistinct(l.entries, Find(l.entries, op.key));
      DropRising(l.births, Find(l.entries, op.key), l.clock);
    }
  }

  function Run<K(==), V>(ops: seq<Op<K, V>>, capacity: nat): (l: Ledger<K, V>)
    requires capacity > 0
    ensures Ordered(l, capacity)
  {
    if ops == [] then Ledger([], [], 0)
    else
      var l := Run(ops[..|ops| - 1], capacity);
      StepOrdered(l, ops[|ops| - 1], capacity);
      Step(l, ops[|ops| - 1], capacity)
  }

  ghost predicate Lives<K, V>(l: Ledger<K, V>, k: K, born: nat)
    requires |l.births| == |l.entries|
  {
    exists i :: 0 <= i < |l.entries| && l.entries[i].key == k && l.births[i] == born
  }

  /** What one operation ends: the entry it removes, or, when it inserts a new key into a cache that
      has room for no more, the entry of earliest birth. Every other entry lives on with its birth,
      so changing a value never makes an entry younger. */
  lemma EndsOnlyTheOldest<K, V>(l: Ledger<K, V>, op: Op<K, V>, capacity: nat, i: nat)
    requires Ordered(l, capacity) && i < |l.entries|
    ensures
      var k, born := l.entries[i].key, l.births[i];
      Lives(Step(l, op, capacity), k, born) <==>
      !(op.RemoveKey? && op.key == k) &&
      !(op.PutKey? && Find(l.entries, op.key) == |l.entries| == capacity - 1 && forall b <- l.births :: born <= b)
  {
    StepOrdered(l, op, capacity);
    var at := Find(l.entries, op.key);
    var after := Step(l, op, capacity);
    var k, born := l.entries[i].key, l.births[i];
    if op.RemoveKey? {
      if at < |l.entries| && i != at {
        var j := if i < at then i else i - 1;
        assert after.entries[j] == l.entries[i] && after.births[j] == born;
      }
    } else if at < |l.entries| {
      assert after.entries[i].key == k && after.births[i] == born;
    } else if |l.entries| + 1 != capacity {
      assert after.entries[i].key == k && after.births[i] == born;
    } else if i > 0 {
      assert after.entries[i - 1].key == k && after.births[i - 1] == born;
      assert l.births[0] in l.births && l.births[0] < born;
    } else {
      assert forall j :: 0 <= j < |after.births| ==> after.births[j] > born;
    }
  }

  /** Without removals the cache holds exactly the most recent insertions, as many as fit. */
  lemma {:induction false} KeepsTheMostRecent<K, V>(ops: seq<Op<K, V>>, capacity: nat)
    requires capacity > 0
    requires forall i :: 0 <= i < |ops| ==> ops[i].PutKey?
    ensures
      var l := Run(ops, capacity);
      && |l.births| == Min(l.clock, capacity - 1)
      && forall i :: 0 <= i < |l.births| ==> l.births[i] == l.clock - |l.births| + i
  {
    if ops != [] {
      KeepsTheMostRecent(ops[..|ops| - 1], capacity);
    }
  }
}
