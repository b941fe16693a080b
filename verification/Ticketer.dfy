/** Rotation of session-ticket keys: the critical sections of `maybe_roll`, and any number of threads
    interleaving them, each with its own clock reading and with a generator that may fail. */
module Ticketer {
  import opened Prelude

  const MAX_SECS: nat := 0xffff_ffff_ffff_ffff

  type Secs = t: nat | t <= MAX_SECS

  /** The identity of a generated ticketer. */
  type Key = nat

  function SaturatingAdd(a: Secs, b: nat): (r: Secs)
    ensures a <= r <= a + b
    ensures r < MAX_SECS ==> r == a + b
  {
    if a + b <= MAX_SECS then a + b else MAX_SECS
  }

  // ---- the state behind the mutex and its three critical sections ----

  datatype Slots = Slots(next: Option<Key>, current: Key, previous: Option<Key>, switchTime: Secs)

  datatype Entry = Guard | WantsNext | Recovering

  function Rotate(s: Slots, now: Secs, lifetime: nat, key: Key): Slots {
    s.(current := key, previous := Some(s.current), switchTime := SaturatingAdd(now, lifetime))
  }

  /** First section: nothing to do, or shift `next` into `current`, or note that `next` is missing. */
  function EnterSlots(s: Slots, now: Secs, lifetime: nat): (Slots, Entry) {
    if now <= s.switchTime then (s, Guard)
    else match s.next
      case Some(k) => (Rotate(s.(next := None), now, lifetime, k), WantsNext)
      case None => (s, Recovering)
  }

  function PlaceSlots(s: Slots, next: Key): Slots {
    s.(next := Some(next))
  }

  /** Last section of the recovery path: the time check is repeated. */
  function RecoverSlots(s: Slots, now: Secs, lifetime: nat, next: Key, newCurrent: Key): Slots {
    var placed := s.(next := Some(next));
    if now > s.switchTime then Rotate(placed, now, lifetime, newCurrent) else placed
  }

  class TicketSwitcher {
    const lifetime: nat
    var next: Option<Key>
    var current: Key
    var previous: Option<Key>
    var switchTime: Secs

    constructor (lifetime: nat, now: Secs, next: Key, current: Key)
      ensures this.lifetime == lifetime
      ensures State() == Slots(Some(next), current, None, SaturatingAdd(now, lifetime))
    {
      this.lifetime := lifetime;
      this.next, this.current, previous := Some(next), current, None;
      switchTime := SaturatingAdd(now, lifetime);
    }

    ghost function State(): Slots
      reads this
    {
      Slots(next, current, previous, switchTime)
    }

    method Enter(now: Secs) returns (entry: Entry)
      modifies this
      ensures (State(), entry) == EnterSlots(old(State()), now, lifetime)
    {
      if now <= switchTime {
        return Guard;
      }
      var taken := next;
      next := None;
      if taken.Some? {
        previous := Some(current);
        current := taken.value;
        switchTime := SaturatingAdd(now, lifetime);
        return WantsNext;
      }
      return Recovering;
    }

    method Place(key: Key)
      modifies this`next
      ensures State() == PlaceSlots(old(State()), key)
    {
      next := Some(key);
    }

    method Recover(now: Secs, newNext: Key, newCurrent: Key)
      modifies this
      ensures State() == RecoverSlots(old(State()), now, lifetime, newNext, newCurrent)
    {
      next := Some(newNext);
      if now > switchTime {
        previous := Some(current);
        current := newCurrent;
        switchTime := SaturatingAdd(now, lifetime);
      }
    }

    /** `maybe_roll` without interference; `first` and `second` are the generator's answers. A guard
        is returned exactly when every generator call that was needed succeeded. */
    method MaybeRoll(now: Secs, first: Option<Key>, second: Option<Key>) returns (guarded: bool)
      modifies this
      ensures guarded ==> now <= switchTime
      ensures guarded <==> old(now <= switchTime) || (first.Some? && (old(next.Some?) || second.Some?))
      ensures guarded && old(now > switchTime) ==>
                next == first && previous == Some(old(current))
                && current == if old(next.Some?) then old(next.value) else second.value
      ensures guarded && old(now > switchTime) ==> switchTime == if now + lifetime <= MAX_SECS then now + lifetime else MAX_SECS
      ensures old(now <= switchTime) ==> State() == old(State())
      ensures !guarded ==>
                && next.None?
                && if old(next.Some?) then previous == Some(old(current)) && current == old(next.value)
                   else previous == old(previous) && current == old(current) && switchTime == old(switchTime)
    {
      var entry := Enter(now);
      if entry.Guard? {
        return true;
      }
      if first.None? {
        return false;
      }
      if entry.WantsNext? {
        Place(first.value);
      } else {
        if second.None? {
          return false;
        }
        Recover(now, first.value, second.value);
      }
      guarded := true;
    }
  }

  // ---- threads ----

  /** Where a thread is inside `maybe_roll(now)`, and the ticketers it has generated and holds. */
  datatype Thread =
    | Idle
    | Generating(now: Secs, recovering: bool)
    | HasNext(now: Secs, recovering: bool, next: Key)
    | HasBoth(now: Secs, next: Key, current: Key)

  /** A key became current, at this clock reading. */
  datatype Rotation = Rotation(at: Secs, key: Key)

  /** `unused` is the first identity not yet generated; `rotations` records which keys have been
      current, oldest first. */
  datatype System = System(
    slots: Slots, threads: map<nat, Thread>, unused: Key, rotations: seq<Rotation>)

  datatype Event =
    | Enter(thread: nat, now: Secs)
    | Generate(thread: nat, ok: bool)
    | Lock(thread: nat)

  function Start(now: Secs, lifetime: nat, threads: set<nat>): System {
    System(Slots(Some(0), 1, None, SaturatingAdd(now, lifetime)), map t | t in threads :: Idle, 2,
           [Rotation(now, 1)])
  }

  predicate Enabled(s: System, e: Event) {
    && e.thread in s.threads
    && var th := s.threads[e.thread];
       match e
       case Enter(_, _) => th.Idle?
       case Generate(_, _) => th.Generating? || (th.HasNext? && th.recovering)
       case Lock(_) => th.HasBoth? || (th.HasNext? && !th.recovering)
  }

  function Step(s: System, lifetime: nat, e: Event): System
    requires Enabled(s, e)
  {
    var th := s.threads[e.thread];
    match e
    case Enter(t, now) =>
      var (slots, entry) := EnterSlots(s.slots, now, lifetime);
      var th' := if entry.Guard? then Idle else Generating(now, entry.Recovering?);
      s.(slots := slots, threads := s.threads[t := th'],
         rotations := s.rotations + (if entry.WantsNext? then [Rotation(now, slots.current)] else []))
    case Generate(t, ok) =>
      var th' :=
        if !ok then Idle
        else if th.Generating? then HasNext(th.now, th.recovering, s.unused)
        else HasBoth(th.now, th.next, s.unused);
      s.(threads := s.threads[t := th'], unused := if ok then s.unused + 1 else s.unused)
    case Lock(t) =>
      var slots :=
        if th.HasNext? then PlaceSlots(s.slots, th.next)
        else RecoverSlots(s.slots, th.now, lifetime, th.next, th.current);
      var rotates := th.HasBoth? && th.now > s.slots.switchTime;
      s.(slots := slots, threads := s.threads[t := Idle],
         rotations := s.rotations + (if rotates then [Rotation(th.now, slots.current)] else []))
  }

  /** Whether this step ends a call of `maybe_roll(now)` with the guard in hand. */
  predicate ReturnsGuard(s: System, e: Event, now: Secs)
    requires Enabled(s, e)
  {
    match e
    case Enter(_, reading) => reading == now && now <= s.slots.switchTime
    case Generate(_, _) => false
    case Lock(t) => s.threads[t].now == now
  }

  ghost predicate Reachable(s: System, lifetime: nat, events: seq<Event>, last: System)
    decreases |events|
  {
    if events == [] then s == last
    else Enabled(s, events[0]) && Reachable(Step(s, lifetime, events[0]), lifetime, events[1..], last)
  }

  // ---- the invariant ----

  predicate Holds(th: Thread, k: Key) {
    || (th.HasNext? && th.next == k)
    || (th.HasBoth? && (th.next == k || th.current == k))
  }

  predicate Rotated(rotations: seq<Rotation>, k: Key) {
    exists i :: 0 <= i < |rotations| && rotations[i].key == k
  }

  lemma RotatedAppend(rotations: seq<Rotation>, r: Rotation, k: Key)
    ensures Rotated(rotations + [r], k) <==> Rotated(rotations, k) || r.key == k
  {
    var longer := rotations + [r];
    assert longer[|rotations|] == r;
    if Rotated(rotations, k) {
      var i :| 0 <= i < |rotations| && rotations[i].key == k;
      assert longer[i].key == k;
    }
  }

  /** The slots are the last two rotations, and each rotation read a clock past the switch time set
      by the one before. */
  ghost predicate Chronicle(s: System, lifetime: nat) {
    var n := |s.rotations|;
    && n >= 1
    && s.slots.current == s.rotations[n - 1].key
    && s.slots.previous == (if n >= 2 then Some(s.rotations[n - 2].key) else None)
    && s.slots.switchTime == SaturatingAdd(s.rotations[n - 1].at, lifetime)
    && (forall i :: 0 <= i < n - 1 ==> SaturatingAdd(s.rotations[i].at, lifetime) < s.rotations[i + 1].at)
    && (forall i, j :: 0 <= i < j < n ==> s.rotations[i].key != s.rotations[j].key)
    && (forall i :: 0 <= i < n ==> s.rotations[i].key < s.unused)
  }

  /** A thread holds only generated keys that were never current and are not in `next`. */
  ghost predicate Pending(s: System, t: nat)
    requires t in s.threads
  {
    && (forall k: Key :: Holds(s.threads[t], k) ==>
                           k < s.unused && !Rotated(s.rotations, k) && s.slots.next != Some(k))
    && (s.threads[t].HasBoth? ==> s.threads[t].next != s.threads[t].current)
  }

  ghost predicate Disjoint(a: Thread, b: Thread) {
    forall k: Key :: Holds(a, k) ==> !Holds(b, k)
  }

  /** Keys not yet rotated in are held once: by `next` or by one thread. */
  ghost predicate Separate(s: System) {
    && (s.slots.next.Some? ==> s.slots.next.value < s.unused && !Rotated(s.rotations, s.slots.next.value))
    && (forall t :: t in s.threads ==> Pending(s, t))
    && (forall t, u :: t in s.threads && u in s.threads && t != u ==> Disjoint(s.threads[t], s.threads[u]))
  }

  /** A thread that made the switch itself finds its reading below every later switch time. */
  ghost predicate Timely(s: System) {
    forall t :: t in s.threads ==>
      (s.threads[t].Generating? || s.threads[t].HasNext?) && !s.threads[t].recovering ==>
        s.threads[t].now <= s.slots.switchTime
  }

  ghost predicate Inv(s: System, lifetime: nat) {
    Chronicle(s, lifetime) && Separate(s) && Timely(s)
  }

  lemma StartInv(now: Secs, lifetime: nat, threads: set<nat>)
    ensures Inv(Start(now, lifetime, threads), lifetime)
  {
  }

  /** A rotation to a key never current before, read past the switch time, extends the chronicle. */
  lemma RotateChronicle(s: System, lifetime: nat, now: Secs, key: Key, next: Option<Key>, threads: map<nat, Thread>)
    requires Chronicle(s, lifetime) && now > s.slots.switchTime
    requires key < s.unused && !Rotated(s.rotations, key)
    ensures Chronicle(
              System(Rotate(s.slots, now, lifetime, key).(next := next), threads, s.unused,
                     s.rotations + [Rotation(now, key)]),
              lifetime)
  {
    var longer := s.rotations + [Rotation(now, key)];
    forall i, j | 0 <= i < j < |longer| ensures longer[i].key != longer[j].key {
      assert longer[i] == s.rotations[i];
    }
  }

  /** The acting thread ends its call: it lets go of its keys, and a key put into `next` or rotated
      in comes from that thread or from `next`. */
  lemma ReleaseSeparate(s: System, lifetime: nat, t: nat, th: Thread, slots: Slots, rotations: seq<Rotation>)
    requires Chronicle(s, lifetime) && Separate(s) && t in s.threads && (th.Idle? || th.Generating?)
    requires slots.next.None? || slots.next == s.slots.next || Holds(s.threads[t], slots.next.value)
    requires rotations == s.rotations ||
             exists r: Rotation :: rotations == s.rotations + [r] && slots.next != Some(r.key) &&
                                   (s.slots.next == Some(r.key) || Holds(s.threads[t], r.key))
    ensures Separate(System(slots, s.threads[t := th], s.unused, rotations))
  {
    var s' := System(slots, s.threads[t := th], s.unused, rotations);
    forall k: Key
      ensures Rotated(rotations, k) ==>
                Rotated(s.rotations, k) ||
                (slots.next != Some(k) && (s.slots.next == Some(k) || Holds(s.threads[t], k)))
    {
      if rotations != s.rotations {
        var r: Rotation :| rotations == s.rotations + [r] && slots.next != Some(r.key) &&
                           (s.slots.next == Some(r.key) || Holds(s.threads[t], r.key));
        RotatedAppend(s.rotations, r, k);
      }
    }
    assert slots.next.Some? ==> Pending(s, t);
    forall u | u in s'.threads ensures Pending(s', u) {
      if u != t {
        assert Pending(s, u) && Disjoint(s.threads[u], s.threads[t]);
      }
    }
  }

  lemma EnterShifts(s: System, lifetime: nat, t: nat, now: Secs)
    requires Inv(s, lifetime) && Enabled(s, Enter(t, now))
    requires now > s.slots.switchTime && s.slots.next.Some?
    ensures Inv(Step(s, lifetime, Enter(t, now)), lifetime)
  {
    var s' := Step(s, lifetime, Enter(t, now));
    RotateChronicle(s, lifetime, now, s.slots.next.value, None, s'.threads);
    ReleaseSeparate(s, lifetime, t, s'.threads[t], s'.slots, s'.rotations);
  }

  lemma EnterInv(s: System, lifetime: nat, t: nat, now: Secs)
    requires Inv(s, lifetime) && Enabled(s, Enter(t, now))
    ensures Inv(Step(s, lifetime, Enter(t, now)), lifetime)
  {
    if now > s.slots.switchTime && s.slots.next.Some? {
      EnterShifts(s, lifetime, t, now);
    } else {
      var s' := Step(s, lifetime, Enter(t, now));
      ReleaseSeparate(s, lifetime, t, s'.threads[t], s'.slots, s'.rotations);
    }
  }

  lemma GenerateInv(s: System, lifetime: nat, t: nat, ok: bool)
    requires Inv(s, lifetime) && Enabled(s, Generate(t, ok))
    ensures Inv(Step(s, lifetime, Generate(t, ok)), lifetime)
  {
    var s' := Step(s, lifetime, Generate(t, ok));
    var th := s.threads[t];
    assert Pending(s, t);
    assert th.HasNext? ==> Holds(th, th.next);
    assert !Rotated(s.rotations, s.unused);
    forall u | u in s'.threads ensures Pending(s', u) {
      assert Pending(s, u);
    }
    forall u, v | u in s'.threads && v in s'.threads && u != v
      ensures Disjoint(s'.threads[u], s'.threads[v])
    {
      assert Disjoint(s.threads[u], s.threads[v]) && Pending(s, u) && Pending(s, v);
    }
  }

  lemma LockRecovers(s: System, lifetime: nat, t: nat)
    requires Inv(s, lifetime) && Enabled(s, Lock(t))
    requires s.threads[t].HasBoth? && s.threads[t].now > s.slots.switchTime
    ensures Inv(Step(s, lifetime, Lock(t)), lifetime)
  {
    var s' := Step(s, lifetime, Lock(t));
    var th := s.threads[t];
    assert Pending(s, t);
    assert Holds(th, th.next) && Holds(th, th.current);
    RotateChronicle(s, lifetime, th.now, th.current, Some(th.next), s'.threads);
    ReleaseSeparate(s, lifetime, t, Idle, s'.slots, s'.rotations);
  }

  lemma LockInv(s: System, lifetime: nat, t: nat)
    requires Inv(s, lifetime) && Enabled(s, Lock(t))
    ensures Inv(Step(s, lifetime, Lock(t)), lifetime)
  {
    var th := s.threads[t];
    if th.HasBoth? && th.now > s.slots.switchTime {
      LockRecovers(s, lifetime, t);
    } else {
      var s' := Step(s, lifetime, Lock(t));
      assert Pending(s, t);
      assert Holds(th, th.next);
      ReleaseSeparate(s, lifetime, t, Idle, s'.slots, s'.rotations);
    }
  }

  lemma StepInv(s: System, lifetime: nat, e: Event)
    requires Inv(s, lifetime) && Enabled(s, e)
    ensures Inv(Step(s, lifetime, e), lifetime)
  {
    match e
    case Enter(t, now) => EnterInv(s, lifetime, t, now);
    case Generate(t, ok) => GenerateInv(s, lifetime, t, ok);
    case Lock(t) => LockInv(s, lifetime, t);
  }

  lemma {:induction false} ReachableInv(s: System, lifetime: nat, events: seq<Event>, last: System)
    requires Inv(s, lifetime) && Reachable(s, lifetime, events, last)
    ensures Inv(last, lifetime) && s.rotations <= last.rotations
    decreases |events|
  {
    if events != [] {
      StepInv(s, lifetime, events[0]);
      ReachableInv(Step(s, lifetime, events[0]), lifetime, events[1..], last);
    }
  }

  // ---- what the invariant gives ----

  /** Whenever a call returns the guard, its reading is not past the switch time it sees. */
  lemma GuardIsTimely(s: System, lifetime: nat, e: Event, now: Secs)
    requires Inv(s, lifetime) && Enabled(s, e) && ReturnsGuard(s, e, now)
    ensures now <= Step(s, lifetime, e).slots.switchTime
  {
  }

  /** The switch time moves exactly at rotations, and then strictly forward. */
  lemma SwitchTimeAdvances(s: System, lifetime: nat, e: Event)
    requires Inv(s, lifetime) && Enabled(s, e)
    ensures
      var s' := Step(s, lifetime, e);
      && (s'.rotations == s.rotations ==> s'.slots.switchTime == s.slots.switchTime)
      && (s'.rotations != s.rotations ==> s'.slots.switchTime > s.slots.switchTime)
  {
  }

  /** Where a ticketer is: 0 not generated, 1 waiting in `next` or in a thread, 2 current, 3 previous,
      4 gone. */
  ghost function Stage(s: System, k: Key): nat {
    if k >= s.unused then 0
    else if s.slots.current == k then 2
    else if s.slots.previous == Some(k) then 3
    else if s.slots.next == Some(k) || (exists t :: t in s.threads && Holds(s.threads[t], k)) then 1
    else 4
  }

  /** Every ticketer only moves forward through the stages, and no slot holds it twice. */
  lemma StagesAdvance(s: System, lifetime: nat, e: Event, k: Key)
    requires Inv(s, lifetime) && Enabled(s, e)
    ensures Stage(s, k) <= Stage(Step(s, lifetime, e), k)
    ensures s.slots.next != Some(s.slots.current) && s.slots.previous != Some(s.slots.current)
    ensures s.slots.next.Some? ==> s.slots.next != s.slots.previous
  {
    var s' := Step(s, lifetime, e);
    StepInv(s, lifetime, e);
    var n := |s.rotations|;
    assert Rotated(s.rotations, s.rotations[n - 1].key);
    assert n >= 2 ==> Rotated(s.rotations, s.rotations[n - 2].key);
    assert Pending(s, e.thread);
    if Stage(s, k) >= 2 {
      PendingKeysAreNew(s, lifetime, e, k);
    }
  }

  /** A key waiting after a step was waiting before it or has just been generated. */
  lemma PendingKeysAreNew(s: System, lifetime: nat, e: Event, k: Key)
    requires Inv(s, lifetime) && Enabled(s, e) && k < s.unused
    ensures
      var s' := Step(s, lifetime, e);
      s'.slots.next == Some(k) || s'.slots.current == k || (exists t :: t in s'.threads && Holds(s'.threads[t], k)) ==>
        s.slots.next == Some(k) || s.slots.current == k || (exists t :: t in s.threads && Holds(s.threads[t], k))
  {
    var s' := Step(s, lifetime, e);
    var th := s.threads[e.thread];
    assert th.HasNext? || th.HasBoth? ==> Holds(th, th.next);
    assert th.HasBoth? ==> Holds(th, th.current);
    forall t | t in s'.threads && Holds(s'.threads[t], k) ensures Holds(s.threads[t], k) {
    }
  }

  /** In every interleaving from the start: a returned guard is timely, each rotation moves the switch
      time strictly forward and nothing else moves it, and every ticketer only moves forward. */
  lemma EveryInterleaving(
      start: Secs, lifetime: nat, threads: set<nat>, events: seq<Event>, s: System, e: Event, now: Secs, k: Key)
    requires Reachable(Start(start, lifetime, threads), lifetime, events, s) && Enabled(s, e)
    ensures
      var s' := Step(s, lifetime, e);
      && (ReturnsGuard(s, e, now) ==> now <= s'.slots.switchTime)
      && (if s'.rotations == s.rotations then s'.slots.switchTime == s.slots.switchTime
          else s'.slots.switchTime > s.slots.switchTime)
      && Stage(s, k) <= Stage(s', k)
  {
    StartInv(start, lifetime, threads);
    ReachableInv(Start(start, lifetime, threads), lifetime, events, s);
    if ReturnsGuard(s, e, now) {
      GuardIsTimely(s, lifetime, e, now);
    }
    SwitchTimeAdvances(s, lifetime, e);
    StagesAdvance(s, lifetime, e, k);
  }

  predicate Decrypts(s: System, k: Key) {
    s.slots.current == k || s.slots.previous == Some(k)
  }

  /** A ticket issued under the guard at reading `now` is decryptable until the second rotation after
      it and never again, and that rotation reads a clock more than `lifetime` past `now`. */
  lemma TicketLife(s: System, lifetime: nat, now: Secs, events: seq<Event>, last: System)
    requires Inv(s, lifetime) && now <= s.slots.switchTime && Reachable(s, lifetime, events, last)
    ensures
      var n := |s.rotations|;
      && |last.rotations| >= n
      && (Decrypts(last, s.slots.current) <==> |last.rotations| <= n + 1)
      && (|last.rotations| >= n + 1 ==> now < last.rotations[n].at)
      && (|last.rotations| >= n + 2 ==> now + lifetime < last.rotations[n + 1].at)
  {
    ReachableInv(s, lifetime, events, last);
    var n := |s.rotations|;
    assert last.rotations[n - 1] == s.rotations[n - 1];
    if |last.rotations| >= n + 1 {
      assert SaturatingAdd(last.rotations[n - 1].at, lifetime) < last.rotations[n - 1 + 1].at;
    }
    if |last.rotations| >= n + 2 {
      assert SaturatingAdd(last.rotations[n].at, lifetime) < last.rotations[n + 1].at;
    }
  }

  /** A decryption with reading `at` is answered from these slots and finds the key. */
  predicate AcceptedAt(s: System, k: Key, at: Secs) {
    at <= s.slots.switchTime && Decrypts(s, k)
  }

  function LatestReading(s: System): nat {
    if s.rotations == [] then 0 else s.rotations[|s.rotations| - 1].at
  }

  /** The documentation promises acceptance for at most twice the lifetime. In any later state that promise
      holds for every acceptance exactly when the ticket's key is gone, or the latest rotation read the
      clock at most one lifetime after the issue (or the clock ends before the promise does). */
  lemma AcceptedTwiceTheLifetime(s: System, lifetime: nat, now: Secs, events: seq<Event>, last: System)
    requires Inv(s, lifetime) && now <= s.slots.switchTime && Reachable(s, lifetime, events, last)
    ensures
      (forall at: Secs :: AcceptedAt(last, s.slots.current, at) ==> at <= now + 2 * lifetime) <==>
      || |last.rotations| >= |s.rotations| + 2
      || LatestReading(last) <= now + lifetime
      || MAX_SECS <= now + 2 * lifetime
  {
    TicketLife(s, lifetime, now, events, last);
    ReachableInv(s, lifetime, events, last);
    if |last.rotations| < |s.rotations| + 2 {
      assert AcceptedAt(last, s.slots.current, last.slots.switchTime);
    }
  }

  /** So with no calls for a long while a ticket outlives the promise: issued at 0, it is accepted by
      the call at any later reading, which itself makes the first rotation. */
  lemma IdleSwitcherAcceptsLate(lifetime: nat, late: Secs)
    requires lifetime < late
    ensures
      var s := Start(0, lifetime, {0});
      var rolled := Step(s, lifetime, Enter(0, late));
      && Inv(s, lifetime) && ReturnsGuard(s, Enter(0, 0), 0)
      && Enabled(s, Enter(0, late)) && Enabled(rolled, Generate(0, true))
      && var ready := Step(rolled, lifetime, Generate(0, true));
         Enabled(ready, Lock(0)) && ReturnsGuard(ready, Lock(0), late)
         && AcceptedAt(Step(ready, lifetime, Lock(0)), s.slots.current, late)
  {
  }
}
