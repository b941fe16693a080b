/** Routing rules in the configuration file: the effective order shown to the user, moving a rule against
    its neighbour, and inserting a new rule. */
module RuleOrder {
  import opened Prelude
  import opened Text
  import Sorting

  /** An item of the YAML rule list. Items that are not mappings have no fields. The fields of a tagged
      mapping can be read, but renumbering passes it over. */
  datatype Entry =
    | Mapping(source: Option<string>, ruleType: Option<string>, group: Option<string>,
              pattern: Option<string>, rest: string, enabled: bool, priority: Option<int>, tagged: bool)
    | Scalar(text: string)

  function OrEmpty(field: Option<string>): string {
    if field.Some? then field.value else ""
  }

  function Priority(r: Entry): int {
    if r.Mapping? && r.priority.Some? then r.priority.value else 0
  }

  /** Device rules, device catch-alls, global rules, global catch-alls. */
  function Phase(r: Entry): nat {
    (if r.Mapping? && OrEmpty(r.source) != "" then 0 else 2) +
    (if r.Mapping? && r.ruleType in {Some("final"), Some("match")} then 1 else 0)
  }

  type Indexed = (nat, Entry)

  function Enumerate(list: seq<Entry>): seq<Indexed> {
    seq(|list|, i requires 0 <= i < |list| => (i, list[i]))
  }

  function Project(pairs: seq<Indexed>): seq<Entry> {
    seq(|pairs|, i requires 0 <= i < |pairs| => pairs[i].1)
  }

  /** Phase first, then higher priority, then position in the file. */
  predicate Le(a: Indexed, b: Indexed) {
    || Phase(a.1) < Phase(b.1)
    || (Phase(a.1) == Phase(b.1) &&
        (Priority(a.1) > Priority(b.1) || (Priority(a.1) == Priority(b.1) && a.0 <= b.0)))
  }

  function SortedPairs(list: seq<Entry>): seq<Indexed> {
    Sorting.Sort(Le, Enumerate(list))
  }

  /** The order shown by the web interface. */
  function Effective(list: seq<Entry>): (r: seq<Entry>)
    ensures |r| == |list|
  {
    Project(SortedPairs(list))
  }

  // ---- moving ----

  datatype MoveError = BadDirection | OutOfRange | Stale | AtEdge | AcrossPhases

  function Position(pairs: seq<Indexed>, index: nat): (k: nat)
    ensures k <= |pairs|
    ensures k < |pairs| ==> pairs[k].0 == index
    ensures forall i :: 0 <= i < k ==> pairs[i].0 != index
  {
    if pairs == [] then 0
    else if pairs[0].0 == index then 0
    else 1 + Position(pairs[1..], index)
  }

  function SwapAt(s: seq<Entry>, i: nat, j: nat): seq<Entry>
    requires i < |s| && j < |s|
  {
    s[i := s[j]][j := s[i]]
  }

  /** Renumbering passes the item over. */
  predicate Fixed(r: Entry) {
    r.Scalar? || r.tagged
  }

  function WithPriority(r: Entry, p: int): Entry {
    if Fixed(r) then r else r.(priority := Some(p))
  }

  /** Priorities n, n - 1, ... down the list, on untagged mappings only. */
  function Renumber(s: seq<Entry>): seq<Entry> {
    seq(|s|, i requires 0 <= i < |s| => WithPriority(s[i], |s| - i))
  }

  function Moved(list: seq<Entry>, index: nat, dir: int, stale: bool): Result<seq<Entry>, MoveError> {
    if dir != -1 && dir != 1 then Err(BadDirection)
    else if index >= |list| then Err(OutOfRange)
    else if stale then Err(Stale)
    else
      var order := Effective(list);
      var at := Position(SortedPairs(list), index);
      var other := at + dir;
      if other < 0 || other >= |order| || at >= |order| then Err(AtEdge)
      else if Phase(order[at]) != Phase(order[other]) then Err(AcrossPhases)
      else Ok(Renumber(SwapAt(order, at, other)))
  }

  method MoveRule(list: seq<Entry>, index: nat, dir: int, stale: bool) returns (r: Result<seq<Entry>, MoveError>)
    ensures r == Moved(list, index, dir, stale)
  {
    if dir != -1 && dir != 1 {
      return Err(BadDirection);
    }
    if index >= |list| {
      return Err(OutOfRange);
    }
    if stale {
      return Err(Stale);
    }
    var pairs := Sorting.Sort(Le, Enumerate(list));
    IndexIsSorted(list, index);
    var at := Position(pairs, index);
    var s := Project(pairs);
    var other := at + dir;
    if other < 0 || other >= |s| {
      return Err(AtEdge);
    }
    if Phase(s[at]) != Phase(s[other]) {
      return Err(AcrossPhases);
    }
    s := RenumberAll(SwapAt(s, at, other));
    r := Ok(s);
  }

  method RenumberAll(swapped: seq<Entry>) returns (s: seq<Entry>)
    ensures s == Renumber(swapped)
  {
    s := swapped;
    var n := |s|;
    var i := 0;
    while i < n
      invariant 0 <= i <= n == |s| == |swapped|
      invariant forall k :: 0 <= k < i ==> s[k] == WithPriority(swapped[k], n - k)
      invariant forall k :: i <= k < n ==> s[k] == swapped[k]
    {
      if s[i].Mapping? && !s[i].tagged {
        s := s[i := s[i].(priority := Some(n - i))];
      }
      i := i + 1;
    }
  }

  // ---- facts about the order ----

  lemma LeIsPreorder()
    ensures Sorting.Preorder(Le)
  {
  }

  lemma SortedPairsFacts(list: seq<Entry>)
    ensures Sorting.Sorted(Le, SortedPairs(list)) && |SortedPairs(list)| == |list|
    ensures multiset(SortedPairs(list)) == multiset(Enumerate(list))
    ensures forall k :: 0 <= k < |list| ==>
              var p := SortedPairs(list)[k]; 0 <= p.0 < |list| && list[p.0] == p.1
  {
    LeIsPreorder();
    Sorting.SortSorted(Le, Enumerate(list));
    forall k | 0 <= k < |list|
      ensures var p := SortedPairs(list)[k]; 0 <= p.0 < |list| && list[p.0] == p.1
    {
      assert SortedPairs(list)[k] in multiset(SortedPairs(list));
      assert SortedPairs(list)[k] in Enumerate(list);
    }
  }

  lemma IndexIsSorted(list: seq<Entry>, index: nat)
    requires index < |list|
    ensures Position(SortedPairs(list), index) < |list|
    ensures Effective(list)[Position(SortedPairs(list), index)] == list[index]
  {
    SortedPairsFacts(list);
    assert Enumerate(list)[index] == (index, list[index]);
    assert (index, list[index]) in multiset(Enumerate(list));
    assert (index, list[index]) in SortedPairs(list);
  }

  /** The list is in its own effective order. */
  predicate InOrder(s: seq<Entry>) {
    forall i, j :: 0 <= i < j < |s| ==>
      Phase(s[i]) < Phase(s[j]) || (Phase(s[i]) == Phase(s[j]) && Priority(s[i]) >= Priority(s[j]))
  }

  lemma EffectiveFixesInOrder(s: seq<Entry>)
    ensures Effective(s) == s <==> InOrder(s)
    ensures InOrder(Effective(s))
  {
    SortedPairsFacts(s);
    var pairs := SortedPairs(s);
    assert InOrder(Effective(s)) by {
      forall i, j | 0 <= i < j < |s| ensures Le(pairs[i], pairs[j]) {
      }
    }
    if InOrder(s) {
      assert Sorting.Sorted(Le, Enumerate(s));
      Sorting.SortFixesSorted(Le, Enumerate(s));
      assert Project(Enumerate(s)) == s;
    }
  }

  /** What renumbering leaves of an item: all of it, or all but its priority. */
  function Content(r: Entry): Entry {
    if Fixed(r) then r else r.(priority := None)
  }

  /** `out` is `order` with two neighbours of one phase swapped and new priorities written down it. */
  predicate NeighboursSwapped(order: seq<Entry>, at: nat, other: nat, out: seq<Entry>) {
    && |out| == |order| && at < |order| && other < |order| && (other == at + 1 || at == other + 1)
    && Phase(order[at]) == Phase(order[other])
    && Content(out[at]) == Content(order[other]) && Content(out[other]) == Content(order[at])
    && (forall k :: 0 <= k < |out| && k != at && k != other ==> Content(out[k]) == Content(order[k]))
    && (forall k :: 0 <= k < |out| && !Fixed(out[k]) ==> Priority(out[k]) == |out| - k)
  }

  lemma RenumberedSwap(order: seq<Entry>, at: nat, other: nat)
    requires at < |order| && other < |order| && (other == at + 1 || at == other + 1)
    requires Phase(order[at]) == Phase(order[other])
    ensures NeighboursSwapped(order, at, other, Renumber(SwapAt(order, at, other)))
  {
    var s := SwapAt(order, at, other);
    forall k | 0 <= k < |s| ensures Content(Renumber(s)[k]) == Content(s[k]) {
    }
  }

  lemma PhaseOfContent(r: Entry)
    ensures Phase(Content(r)) == Phase(r)
  {
  }

  lemma SwappedPhases(order: seq<Entry>, at: nat, other: nat, out: seq<Entry>, k: nat)
    requires NeighboursSwapped(order, at, other, out) && k < |out|
    ensures Phase(out[k]) == Phase(order[k])
  {
    PhaseOfContent(out[k]);
    PhaseOfContent(order[k]);
    PhaseOfContent(order[at]);
    PhaseOfContent(order[other]);
  }

  /** The priority an item at this place has after renumbering. */
  function Rank(s: seq<Entry>, k: nat): int
    requires k < |s|
  {
    if Fixed(s[k]) then Priority(s[k]) else |s| - k
  }

  /** An item that renumbering passes over is outranked from below, or outranks from below, in its phase. */
  predicate Stranded(s: seq<Entry>) {
    exists i, j :: 0 <= i < j < |s| && Phase(s[i]) == Phase(s[j]) && (Fixed(s[i]) || Fixed(s[j])) && Rank(s, i) < Rank(s, j)
  }

  /** Without tagged mappings this says that a mapping of the global phase stands after an item that is not
      a mapping: such an item has priority 0. */
  lemma StrandedUntagged(s: seq<Entry>)
    requires forall k :: 0 <= k < |s| && s[k].Mapping? ==> !s[k].tagged
    ensures Stranded(s) <==> exists i, j :: 0 <= i < j < |s| && s[i].Scalar? && s[j].Mapping? && Phase(s[j]) == 2
  {
    if Stranded(s) {
      var i, j :| 0 <= i < j < |s| && Phase(s[i]) == Phase(s[j]) && (Fixed(s[i]) || Fixed(s[j])) && Rank(s, i) < Rank(s, j);
      assert s[i].Scalar? && s[j].Mapping? && Phase(s[j]) == 2;
    }
    forall i, j | 0 <= i < j < |s| && s[i].Scalar? && s[j].Mapping? && Phase(s[j]) == 2
      ensures Stranded(s)
    {
      assert Rank(s, i) < Rank(s, j);
    }
  }

  lemma SwappedInOrder(order: seq<Entry>, at: nat, other: nat, out: seq<Entry>)
    requires InOrder(order) && NeighboursSwapped(order, at, other, out)
    ensures InOrder(out) <==> !Stranded(out)
  {
    forall k | 0 <= k < |out| ensures Phase(out[k]) == Phase(order[k]) && Rank(out, k) == Priority(out[k]) {
      SwappedPhases(order, at, other, out, k);
    }
    if Stranded(out) {
      var i, j :|
        && 0 <= i < j < |out| && Phase(out[i]) == Phase(out[j])
        && (Fixed(out[i]) || Fixed(out[j])) && Rank(out, i) < Rank(out, j);
      assert Priority(out[i]) < Priority(out[j]);
    } else {
      forall i, j | 0 <= i < j < |out|
        ensures Phase(out[i]) < Phase(out[j]) || (Phase(out[i]) == Phase(out[j]) && Priority(out[i]) >= Priority(out[j]))
      {
        assert Phase(order[i]) <= Phase(order[j]);
      }
    }
  }

  /** Whether an item is stranded does not depend on the numbers written. */
  lemma RenumberStranded(s: seq<Entry>)
    ensures Stranded(Renumber(s)) <==> Stranded(s)
  {
    var r := Renumber(s);
    forall k | 0 <= k < |s| ensures Phase(r[k]) == Phase(s[k]) && Rank(r, k) == Rank(s, k) && Fixed(r[k]) == Fixed(s[k]) {
      assert r[k] == WithPriority(s[k], |s| - k);
    }
    forall i, j | 0 <= i < j < |s|
      ensures Rank(r, i) < Rank(r, j) <==> Rank(s, i) < Rank(s, j)
    {
    }
  }

  /** A move is refused exactly when the direction is neither up nor down, the index is past the list, the
      request is stale, the rule is first or last in the effective order, or its neighbour there belongs to
      another phase. */
  lemma MoveRefusedIff(list: seq<Entry>, index: nat, dir: int, stale: bool)
    ensures
      var r := Moved(list, index, dir, stale);
      if dir != -1 && dir != 1 then r == Err(BadDirection)
      else if index >= |list| then r == Err(OutOfRange)
      else if stale then r == Err(Stale)
      else
        var at := Position(SortedPairs(list), index);
        && at < |list| && Effective(list)[at] == list[index]
        && (r == Err(AtEdge) <==> (dir == -1 && at == 0) || (dir == 1 && at == |list| - 1))
        && (r == Err(AcrossPhases) <==> 0 <= at + dir < |list| && Phase(Effective(list)[at + dir]) != Phase(list[index]))
        && (r.Ok? <==> 0 <= at + dir < |list| && Phase(Effective(list)[at + dir]) == Phase(list[index]))
  {
    if index < |list| {
      IndexIsSorted(list, index);
    }
  }

  /** A successful move swaps the rule with its neighbour of the same phase in the effective order,
      changes nothing but priorities, and writes the list out in that order. */
  lemma MoveSwapsNeighbours(list: seq<Entry>, index: nat, dir: int, stale: bool)
    requires Moved(list, index, dir, stale).Ok?
    ensures
      var at := Position(SortedPairs(list), index);
      && at < |list| && 0 <= at + dir < |list| && Effective(list)[at] == list[index]
      && NeighboursSwapped(Effective(list), at, at + dir, Moved(list, index, dir, stale).value)
  {
    var at := Position(SortedPairs(list), index);
    IndexIsSorted(list, index);
    RenumberedSwap(Effective(list), at, at + dir);
  }

  /** The effective order with the moved rule and its neighbour swapped, before renumbering. */
  function Swapped(list: seq<Entry>, index: nat, dir: int): seq<Entry> {
    var at := Position(SortedPairs(list), index);
    if at < |list| && 0 <= at + dir < |list| then SwapAt(Effective(list), at, at + dir) else Effective(list)
  }

  /** The written list is in its own effective order exactly when renumbering strands no item. */
  lemma MoveWritesEffectiveOrder(list: seq<Entry>, index: nat, dir: int, stale: bool)
    requires Moved(list, index, dir, stale).Ok?
    ensures
      var out := Moved(list, index, dir, stale).value;
      Effective(out) == out <==> !Stranded(Swapped(list, index, dir))
  {
    var out := Moved(list, index, dir, stale).value;
    MovedInOrderIff(list, index, dir, stale, out);
    EffectiveFixesInOrder(out);
    MoveSwapsNeighbours(list, index, dir, stale);
    RenumberStranded(Swapped(list, index, dir));
  }

  lemma MovedInOrderIff(list: seq<Entry>, index: nat, dir: int, stale: bool, out: seq<Entry>)
    requires Moved(list, index, dir, stale) == Ok(out)
    ensures InOrder(out) <==> !Stranded(out)
  {
    var at := Position(SortedPairs(list), index);
    MoveSwapsNeighbours(list, index, dir, stale);
    EffectiveFixesInOrder(list);
    SwappedInOrder(Effective(list), at, at + dir, out);
  }

  // ---- the router's order ----

  function Enabled(pairs: seq<Indexed>): seq<Indexed> {
    if pairs == [] then []
    else (if pairs[0].1.Mapping? && pairs[0].1.enabled then [pairs[0]] else []) + Enabled(pairs[1..])
  }

  predicate RouterLe(a: Indexed, b: Indexed) {
    Priority(a.1) > Priority(b.1) || (Priority(a.1) == Priority(b.1) && a.0 <= b.0)
  }

  /** The order in which the router tries the rules. */
  function RouterOrder(list: seq<Entry>): seq<Indexed> {
    Sorting.Sort(RouterLe, Enabled(Enumerate(list)))
  }

  /** The router keeps exactly the enabled rules. */
  lemma {:induction false} EnabledMeaning(pairs: seq<Indexed>)
    ensures forall p :: p in Enabled(pairs) <==> p in pairs && p.1.Mapping? && p.1.enabled
  {
    if pairs != [] {
      EnabledMeaning(pairs[1..]);
      assert pairs == [pairs[0]] + pairs[1..];
    }
  }

  lemma {:induction false} EnabledSorted(pairs: seq<Indexed>)
    requires Sorting.Sorted(RouterLe, pairs)
    ensures Sorting.Sorted(RouterLe, Enabled(pairs))
    ensures forall p :: p in Enabled(pairs) ==> p in pairs
  {
    if pairs != [] {
      EnabledSorted(pairs[1..]);
      assert forall p :: p in Enabled(pairs[1..]) ==> RouterLe(pairs[0], p);
    }
  }

  lemma MovedMappings(list: seq<Entry>, index: nat, dir: int, stale: bool)
    requires Moved(list, index, dir, stale).Ok? && forall r :: r in list ==> !Fixed(r)
    ensures
      var out := Moved(list, index, dir, stale).value;
      (forall k :: 0 <= k < |out| ==> !Fixed(out[k])) && Sorting.Sorted(RouterLe, Enumerate(out))
  {
    var out := Moved(list, index, dir, stale).value;
    var order := Effective(list);
    SortedPairsFacts(list);
    MoveSwapsNeighbours(list, index, dir, stale);
    assert forall k :: 0 <= k < |order| ==> order[k] in list;
    forall k | 0 <= k < |out| ensures !Fixed(out[k]) {
      assert !Fixed(Content(out[k]));
    }
  }

  lemma NoneFixedNotStranded(s: seq<Entry>)
    requires forall k :: 0 <= k < |s| ==> !Fixed(s[k])
    ensures !Stranded(s)
  {
  }

  lemma MovedMappingsInOrder(list: seq<Entry>, index: nat, dir: int, stale: bool, out: seq<Entry>)
    requires Moved(list, index, dir, stale) == Ok(out) && forall k :: 0 <= k < |out| ==> !Fixed(out[k])
    ensures Effective(out) == out
  {
    MoveSwapsNeighbours(list, index, dir, stale);
    NoneFixedNotStranded(out);
    RenumberStranded(Swapped(list, index, dir));
    MoveWritesEffectiveOrder(list, index, dir, stale);
  }

  lemma RouterOrderOfSorted(out: seq<Entry>)
    requires Sorting.Sorted(RouterLe, Enumerate(out))
    ensures RouterOrder(out) == Enabled(Enumerate(out))
  {
    EnabledSorted(Enumerate(out));
    Sorting.SortFixesSorted(RouterLe, Enabled(Enumerate(out)));
  }

  /** After a move of a list of untagged mappings the router, which sorts by priority alone, tries the
      enabled rules in exactly the order written and shown. */
  lemma RouterFollowsMove(list: seq<Entry>, index: nat, dir: int, stale: bool)
    requires Moved(list, index, dir, stale).Ok? && forall r :: r in list ==> !Fixed(r)
    ensures
      var out := Moved(list, index, dir, stale).value;
      RouterOrder(out) == Enabled(Enumerate(out)) && Effective(out) == out
  {
    var out := Moved(list, index, dir, stale).value;
    MovedMappings(list, index, dir, stale);
    MovedMappingsInOrder(list, index, dir, stale, out);
    RouterOrderOfSorted(out);
  }

  // ---- adding ----

  /** The cast of a 64-bit priority to `i32`. */
  function Wrap32(x: int): (r: int)
    ensures -0x8000_0000 <= r < 0x8000_0000
    ensures -0x8000_0000 <= x < 0x8000_0000 ==> r == x
    ensures (x - r) % 0x1_0000_0000 == 0
  {
    (x + 0x8000_0000) % 0x1_0000_0000 - 0x8000_0000
  }

  /** The stored rule has the same group, type, pattern and source. */
  predicate Duplicates(r: Entry, added: Entry)
    requires added.Mapping?
  {
    && r.Mapping? && Trim(OrEmpty(r.group)) == OrEmpty(added.group)
    && r.ruleType == added.ruleType && r.pattern == added.pattern
    && OrEmpty(r.source) == OrEmpty(added.source)
  }

  /** The first place whose rule, with its priority cast to 32 bits, does not outrank the new one. */
  function InsertAt(list: seq<Entry>, priority: int): (k: nat)
    ensures k <= |list|
    ensures forall i :: 0 <= i < k ==> Wrap32(Priority(list[i])) > priority
    ensures k < |list| ==> Wrap32(Priority(list[k])) <= priority
  {
    if list == [] || Wrap32(Priority(list[0])) <= priority then 0
    else 1 + InsertAt(list[1..], priority)
  }

  /** A rule as the form submits it: complete, with a 32-bit priority. */
  predicate Submitted(r: Entry) {
    && r.Mapping? && !r.tagged && r.ruleType.Some? && r.pattern.Some?
    && r.priority.Some? && -0x8000_0000 <= r.priority.value < 0x8000_0000
  }

  method FindSlot(list: seq<Entry>, priority: int) returns (k: nat)
    ensures k == InsertAt(list, priority)
  {
    k := 0;
    while k < |list| && Wrap32(Priority(list[k])) > priority
      invariant 0 <= k <= |list|
      invariant InsertAt(list, priority) == k + InsertAt(list[k..], priority)
    {
      k := k + 1;
    }
  }

  function Inserted(list: seq<Entry>, at: nat, added: Entry): seq<Entry>
    requires at <= |list|
  {
    list[..at] + [added] + list[at..]
  }

  /** Adds the rule unless an equal one exists; None reports the duplicate. */
  method AddRule(list: seq<Entry>, added: Entry) returns (r: Option<seq<Entry>>)
    requires Submitted(added)
    ensures r.None? <==> exists i :: 0 <= i < |list| && Duplicates(list[i], added)
    ensures r.Some? ==> r.value == Inserted(list, InsertAt(list, added.priority.value), added)
  {
    if exists i :: 0 <= i < |list| && Duplicates(list[i], added) {
      return None;
    }
    var k := FindSlot(list, added.priority.value);
    r := Some(Inserted(list, k, added));
  }

  /** The rule at position i of the file comes before the one at j in the effective order. */
  predicate Precedes(list: seq<Entry>, i: nat, j: nat)
    requires i < |list| && j < |list|
  {
    Position(SortedPairs(list), i) < Position(SortedPairs(list), j)
  }

  lemma PrecedesMeaning(list: seq<Entry>, i: nat, j: nat)
    requires i < |list| && j < |list| && i != j
    ensures Precedes(list, i, j) <==> Le((i, list[i]), (j, list[j]))
  {
    var pairs := SortedPairs(list);
    IndexIsSorted(list, i);
    IndexIsSorted(list, j);
    var k, l := Position(pairs, i), Position(pairs, j);
    SortedPairsFacts(list);
    assert pairs[k] == (i, list[i]) && pairs[l] == (j, list[j]);
    if k < l {
      assert Le(pairs[k], pairs[l]);
    } else {
      assert Le(pairs[l], pairs[k]);
    }
  }

  predicate OfDevice(r: Entry) {
    r.Mapping? && r.source.Some? && r.source.value != ""
  }

  predicate CatchAll(r: Entry) {
    r.Mapping? && (r.ruleType == Some("final") || r.ruleType == Some("match"))
  }

  /** The effective order in words: rules of a device before the others; among each, catch-alls last; then the
      higher priority, 0 if none is given; then the place in the file. */
  lemma EffectiveOrderMeaning(list: seq<Entry>, i: nat, j: nat)
    requires i < |list| && j < |list| && i != j
    ensures
      var a, b := list[i], list[j];
      Precedes(list, i, j) <==>
      || (OfDevice(a) && !OfDevice(b))
      || (OfDevice(a) == OfDevice(b) && !CatchAll(a) && CatchAll(b))
      || (OfDevice(a) == OfDevice(b) && CatchAll(a) == CatchAll(b) &&
          (Priority(a) > Priority(b) || (Priority(a) == Priority(b) && i < j)))
  {
    PrecedesMeaning(list, i, j);
  }

  /** Adding the same rule again is refused, and a rule that differs in group, type, pattern or source from
      every rule in the list is not. */
  lemma AddedTwice(list: seq<Entry>, added: Entry, again: Entry)
    requires Submitted(added) && Submitted(again) && Trim(OrEmpty(added.group)) == OrEmpty(added.group)
    ensures
      var at := InsertAt(list, added.priority.value);
      var same := && OrEmpty(again.group) == OrEmpty(added.group) && again.ruleType == added.ruleType
                  && again.pattern == added.pattern && OrEmpty(again.source) == OrEmpty(added.source);
      Duplicates(Inserted(list, at, added)[at], again) <==> same
  {
    InsertedHere(list, InsertAt(list, added.priority.value), added);
    DuplicatesIff(added, again);
  }

  lemma InsertedHere(list: seq<Entry>, at: nat, added: Entry)
    requires at <= |list|
    ensures Inserted(list, at, added)[at] == added
  {
  }

  lemma DuplicatesIff(r: Entry, added: Entry)
    requires r.Mapping? && added.Mapping? && Trim(OrEmpty(r.group)) == OrEmpty(r.group)
    ensures Duplicates(r, added) <==>
            && OrEmpty(r.group) == OrEmpty(added.group) && r.ruleType == added.ruleType
            && r.pattern == added.pattern && OrEmpty(r.source) == OrEmpty(added.source)
  {
  }

  function Shift(k: nat, at: nat): nat {
    if k < at then k else k + 1
  }

  lemma InsertedAt(list: seq<Entry>, at: nat, added: Entry, k: nat)
    requires at <= |list| && k < |list|
    ensures Inserted(list, at, added)[at] == added
    ensures Shift(k, at) < |list| + 1 && Inserted(list, at, added)[Shift(k, at)] == list[k]
  {
  }

  lemma NewRulePlace(list: seq<Entry>, at: nat, added: Entry, k: nat)
    requires at <= |list| && k < |list| && Phase(list[k]) == Phase(added)
    requires k < at ==> Priority(list[k]) != Priority(added)
    ensures Precedes(Inserted(list, at, added), at, Shift(k, at)) <==> Priority(list[k]) <= Priority(added)
  {
    InsertedAt(list, at, added, k);
    PrecedesMeaning(Inserted(list, at, added), at, Shift(k, at));
  }

  lemma OldRulesKeepOrder(list: seq<Entry>, at: nat, added: Entry, k: nat, l: nat)
    requires at <= |list| && k < |list| && l < |list| && k != l
    ensures Precedes(Inserted(list, at, added), Shift(k, at), Shift(l, at)) <==> Precedes(list, k, l)
  {
    InsertedAt(list, at, added, k);
    InsertedAt(list, at, added, l);
    PrecedesMeaning(Inserted(list, at, added), Shift(k, at), Shift(l, at));
    PrecedesMeaning(list, k, l);
  }

  /** In the effective order the new rule precedes exactly the rules of its phase that it outranks or
      equals in priority, and the order among the old rules does not change; neither the cast to 32
      bits nor an unsorted file spoils this. */
  lemma AddedRuleOrder(list: seq<Entry>, added: Entry, k: nat, l: nat)
    requires Submitted(added) && k < |list| && l < |list|
    ensures
      var at := InsertAt(list, added.priority.value);
      var out := Inserted(list, at, added);
      && (Phase(list[k]) == Phase(added) ==>
            (Precedes(out, at, Shift(k, at)) <==> Priority(list[k]) <= added.priority.value))
      && (k != l ==> (Precedes(out, Shift(k, at), Shift(l, at)) <==> Precedes(list, k, l)))
  {
    var at := InsertAt(list, added.priority.value);
    if Phase(list[k]) == Phase(added) {
      assert k < at ==> Wrap32(Priority(list[k])) > added.priority.value;
      NewRulePlace(list, at, added, k);
    }
    if k != l {
      OldRulesKeepOrder(list, at, added, k, l);
    }
  }
}
