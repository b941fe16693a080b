/** The desktop editor shows the rules without a source; saving puts the router's own rows back. */
module DesktopRules {
  import opened Prelude

  /** A routing rule: the source it is scoped to, empty for a global rule, and everything else. */
  datatype Rule<T> = Rule(source: string, rest: T)

  type Scoped<T> = (nat, Rule<T>)

  function Globals<T>(rules: seq<Rule<T>>): seq<Rule<T>> {
    if rules == [] then []
    else (if rules[0].source == "" then [rules[0]] else []) + Globals(rules[1..])
  }

  /** The scoped rules, each with its index counted from `base`. */
  function ScopedFrom<T>(rules: seq<Rule<T>>, base: nat): seq<Scoped<T>> {
    if rules == [] then []
    else (if rules[0].source == "" then [] else [(base, rules[0])]) + ScopedFrom(rules[1..], base + 1)
  }

  method Split<T>(rules: seq<Rule<T>>) returns (global: seq<Rule<T>>, scoped: seq<Scoped<T>>)
    ensures global == Globals(rules) && scoped == ScopedFrom(rules, 0)
  {
    global, scoped := [], [];
    for i := 0 to |rules|
      invariant global + Globals(rules[i..]) == Globals(rules)
      invariant scoped + ScopedFrom(rules[i..], i) == ScopedFrom(rules, 0)
    {
      assert rules[i..][1..] == rules[i + 1..];
      if rules[i].source == "" {
        assert global + ([rules[i]] + Globals(rules[i + 1..])) == global + [rules[i]] + Globals(rules[i + 1..]);
        global := global + [rules[i]];
      } else {
        assert scoped + ([(i, rules[i])] + ScopedFrom(rules[i + 1..], i + 1))
            == scoped + [(i, rules[i])] + ScopedFrom(rules[i + 1..], i + 1);
        scoped := scoped + [(i, rules[i])];
      }
    }
  }

  /** What follows `done` once the remaining global rules and the remaining scoped rows are woven. */
  function Weave<T>(done: seq<Rule<T>>, global: seq<Rule<T>>, scoped: seq<Scoped<T>>): seq<Rule<T>>
    decreases |scoped|
  {
    if scoped == [] then done + global
    else
      var n := Min(SaturatingSub(scoped[0].0, |done|), |global|);
      Weave(done + global[..n] + [scoped[0].1], global[n..], scoped[1..])
  }

  method ForStorage<T>(global: seq<Rule<T>>, scoped: seq<Scoped<T>>) returns (result: seq<Rule<T>>)
    ensures result == Weave([], global, scoped)
  {
    result := [];
    var remaining := global;
    for i := 0 to |scoped|
      invariant Weave(result, remaining, scoped[i..]) == Weave([], global, scoped)
    {
      assert scoped[i..][1..] == scoped[i + 1..];
      var n := Min(SaturatingSub(scoped[i].0, |result|), |remaining|);
      result := result + remaining[..n];
      remaining := remaining[n..];
      result := result + [scoped[i].1];
    }
    result := result + remaining;
  }

  // ---- saving an unedited list ----

  lemma ScopedFromAtLeast<T>(rules: seq<Rule<T>>, base: nat)
    ensures ScopedFrom(rules, base) != [] ==> ScopedFrom(rules, base)[0].0 >= base
  {
  }

  /** A global rule due before the next scoped row can be placed on its own. */
  lemma {:induction false} WeaveOne<T>(done: seq<Rule<T>>, g: Rule<T>, global: seq<Rule<T>>, scoped: seq<Scoped<T>>)
    requires scoped == [] || scoped[0].0 > |done|
    ensures Weave(done, [g] + global, scoped) == Weave(done + [g], global, scoped)
  {
    if scoped == [] {
      assert done + ([g] + global) == done + [g] + global;
    } else {
      var n := Min(SaturatingSub(scoped[0].0, |done + [g]|), |global|);
      assert ([g] + global)[..n + 1] == [g] + global[..n];
      assert ([g] + global)[n + 1..] == global[n..];
      assert done + ([g] + global[..n]) == done + [g] + global[..n];
    }
  }

  lemma {:induction false} WeaveUndoes<T>(done: seq<Rule<T>>, rules: seq<Rule<T>>)
    ensures Weave(done, Globals(rules), ScopedFrom(rules, |done|)) == done + rules
    decreases |rules|
  {
    if rules != [] {
      var r, rest := rules[0], rules[1..];
      assert done + rules == done + [r] + rest;
      WeaveUndoes(done + [r], rest);
      ScopedFromAtLeast(rest, |done| + 1);
      if r.source == "" {
        WeaveOne(done, r, Globals(rest), ScopedFrom(rest, |done| + 1));
        assert [] + ScopedFrom(rest, |done| + 1) == ScopedFrom(rest, |done| + 1);
      } else {
        var scoped := ScopedFrom(rules, |done|);
        assert scoped[0] == (|done|, r) && scoped[1..] == ScopedFrom(rest, |done| + 1);
        assert [] + Globals(rest) == Globals(rest);
        assert Globals(rest)[..0] == [] && Globals(rest)[0..] == Globals(rest);
        assert done + [] + [r] == done + [r];
      }
    }
  }

  /** Saving what was split gives back every list exactly. */
  lemma StorageUndoesSplit<T>(rules: seq<Rule<T>>)
    ensures Weave([], Globals(rules), ScopedFrom(rules, 0)) == rules
  {
    WeaveUndoes([], rules);
    assert [] + rules == rules;
  }

  /** Splitting separates by the source: the rules shown are those without one, in order, and the rows kept
      aside are the others, each with its place in the list. */
  lemma {:induction false} SplitSeparates<T>(rules: seq<Rule<T>>, base: nat)
    ensures forall r <- Globals(rules) :: r.source == "" && r in rules
    ensures forall i :: 0 <= i < |rules| && rules[i].source == "" ==> rules[i] in Globals(rules)
    ensures |Globals(rules)| + |ScopedFrom(rules, base)| == |rules|
    ensures forall x <- ScopedFrom(rules, base) ::
              base <= x.0 < base + |rules| && rules[x.0 - base] == x.1 && x.1.source != ""
    decreases |rules|
  {
    if rules != [] {
      SplitSeparates(rules[1..], base + 1);
      assert rules == [rules[0]] + rules[1..];
      forall i | 0 <= i < |rules| && rules[i].source == ""
        ensures rules[i] in Globals(rules)
      {
        assert i > 0 ==> rules[i] == rules[1..][i - 1];
      }
    }
  }

  // ---- saving an edited list ----

  predicate Increasing<T>(scoped: seq<Scoped<T>>) {
    forall i, j :: 0 <= i < j < |scoped| ==> scoped[i].0 < scoped[j].0
  }

  lemma {:induction false} SplitIncreasing<T>(rules: seq<Rule<T>>, base: nat)
    ensures Increasing(ScopedFrom(rules, base))
    ensures forall i :: 0 <= i < |ScopedFrom(rules, base)| ==> base <= ScopedFrom(rules, base)[i].0
    decreases |rules|
  {
    if rules != [] {
      SplitIncreasing(rules[1..], base + 1);
    }
  }

  /** How many scoped rows come before global rule `j`, `shift` rows and rules being placed. */
  function Ahead<T>(scoped: seq<Scoped<T>>, shift: nat, j: int): nat {
    if scoped == [] then 0
    else (if scoped[0].0 - shift <= j then 1 else 0) + Ahead(scoped[1..], shift + 1, j)
  }

  lemma {:induction false} AheadShift<T>(scoped: seq<Scoped<T>>, shift: nat, n: nat, j: int)
    ensures Ahead(scoped, shift + n, j - n) == Ahead(scoped, shift, j)
  {
    if scoped != [] {
      AheadShift(scoped[1..], shift + 1, n, j);
    }
  }

  lemma {:induction false} AheadNone<T>(scoped: seq<Scoped<T>>, shift: nat, j: int)
    requires Increasing(scoped)
    requires scoped != [] ==> scoped[0].0 - shift > j
    ensures Ahead(scoped, shift, j) == 0
  {
    if scoped != [] {
      AheadNone(scoped[1..], shift + 1, j);
    }
  }

  lemma {:induction false} AheadCounts<T>(scoped: seq<Scoped<T>>, shift: nat, j: int, i: nat)
    requires Increasing(scoped) && i < |scoped|
    ensures i < Ahead(scoped, shift, j) <==> scoped[i].0 - i - shift <= j
  {
    if scoped[0].0 - shift > j {
      AheadNone(scoped, shift, j);
      StepsApart(scoped, i);
    } else if i > 0 {
      AheadCounts(scoped[1..], shift + 1, j, i - 1);
    }
  }

  lemma {:induction false} StepsApart<T>(scoped: seq<Scoped<T>>, i: nat)
    requires Increasing(scoped) && i < |scoped|
    ensures scoped[0].0 + i <= scoped[i].0
  {
    if i > 0 {
      StepsApart(scoped, i - 1);
    }
  }

  lemma {:induction false} WeaveKeeps<T>(done: seq<Rule<T>>, global: seq<Rule<T>>, scoped: seq<Scoped<T>>)
    ensures done <= Weave(done, global, scoped)
    ensures |Weave(done, global, scoped)| == |done| + |global| + |scoped|
    decreases |scoped|
  {
    if scoped != [] {
      var n := Min(SaturatingSub(scoped[0].0, |done|), |global|);
      WeaveKeeps(done + global[..n] + [scoped[0].1], global[n..], scoped[1..]);
    }
  }

  lemma FirstScopedPlace<T>(done: seq<Rule<T>>, global: seq<Rule<T>>, scoped: seq<Scoped<T>>)
    requires scoped != [] && |done| <= scoped[0].0
    ensures
      var result := Weave(done, global, scoped);
      var at := Min(scoped[0].0, |done| + |global|);
      at < |result| && result[at] == scoped[0].1
  {
    var n := Min(SaturatingSub(scoped[0].0, |done|), |global|);
    var next := done + global[..n] + [scoped[0].1];
    WeaveKeeps(next, global[n..], scoped[1..]);
    assert next[|done| + n] == scoped[0].1;
  }

  /** Where the `i`-th scoped row lands. */
  lemma {:induction false} ScopedPlace<T>(done: seq<Rule<T>>, global: seq<Rule<T>>, scoped: seq<Scoped<T>>, i: nat)
    requires Increasing(scoped) && i < |scoped| && |done| <= scoped[0].0
    ensures
      var result := Weave(done, global, scoped);
      var at := Min(scoped[i].0, |done| + i + |global|);
      at < |result| && result[at] == scoped[i].1
    decreases |scoped|
  {
    if i == 0 {
      FirstScopedPlace(done, global, scoped);
    } else {
      var n := Min(SaturatingSub(scoped[0].0, |done|), |global|);
      ScopedPlace(done + global[..n] + [scoped[0].1], global[n..], scoped[1..], i - 1);
    }
  }

  /** Where the `j`-th global rule lands. */
  lemma {:induction false} GlobalPlace<T>(done: seq<Rule<T>>, global: seq<Rule<T>>, scoped: seq<Scoped<T>>, j: nat)
    requires Increasing(scoped) && j < |global| && (scoped != [] ==> |done| <= scoped[0].0)
    ensures
      var result := Weave(done, global, scoped);
      var at := |done| + j + Ahead(scoped, |done|, j);
      at < |result| && result[at] == global[j]
    decreases |scoped|
  {
    if scoped != [] {
      var n := Min(SaturatingSub(scoped[0].0, |done|), |global|);
      var next := done + global[..n] + [scoped[0].1];
      WeaveKeeps(next, global[n..], scoped[1..]);
      if j < n {
        AheadNone(scoped, |done|, j);
        assert next[|done| + j] == global[j];
      } else {
        GlobalPlace(next, global[n..], scoped[1..], j - n);
        AheadShift(scoped[1..], |done| + 1, n, j);
      }
    }
  }

  function ScopedAt<T>(global: seq<Rule<T>>, scoped: seq<Scoped<T>>, i: nat): int
    requires i < |scoped|
  {
    Min(scoped[i].0, i + |global|)
  }

  function GlobalAt<T>(scoped: seq<Scoped<T>>, j: nat): nat {
    j + Ahead(scoped, 0, j)
  }

  lemma {:induction false} AheadMonotone<T>(scoped: seq<Scoped<T>>, shift: nat, j: int, k: int)
    requires j <= k
    ensures Ahead(scoped, shift, j) <= Ahead(scoped, shift, k)
  {
    if scoped != [] {
      AheadMonotone(scoped[1..], shift + 1, j, k);
    }
  }

  /** Both lists keep their order and no two rules share a place. */
  lemma PlacesDiffer<T>(global: seq<Rule<T>>, scoped: seq<Scoped<T>>)
    requires Increasing(scoped)
    ensures forall i, k :: 0 <= i < k < |scoped| ==> ScopedAt(global, scoped, i) < ScopedAt(global, scoped, k)
    ensures forall j, k :: 0 <= j < k < |global| ==> GlobalAt(scoped, j) < GlobalAt(scoped, k)
    ensures forall i, j :: 0 <= i < |scoped| && 0 <= j < |global| ==> ScopedAt(global, scoped, i) != GlobalAt(scoped, j)
  {
    forall j, k | 0 <= j < k < |global|
      ensures GlobalAt(scoped, j) < GlobalAt(scoped, k)
    {
      AheadMonotone(scoped, 0, j, k);
    }
    forall i, j | 0 <= i < |scoped| && 0 <= j < |global|
      ensures ScopedAt(global, scoped, i) != GlobalAt(scoped, j)
    {
      AheadCounts(scoped, 0, j, i);
    }
  }

  lemma ScopedPlaces<T>(global: seq<Rule<T>>, scoped: seq<Scoped<T>>)
    requires Increasing(scoped)
    ensures
      var result := Weave([], global, scoped);
      forall i :: 0 <= i < |scoped| ==>
        var at := ScopedAt(global, scoped, i);
        0 <= at <= scoped[i].0 && at < |result| && result[at] == scoped[i].1
  {
    var result := Weave([], global, scoped);
    forall i | 0 <= i < |scoped|
      ensures
        var at := ScopedAt(global, scoped, i);
        0 <= at <= scoped[i].0 && at < |result| && result[at] == scoped[i].1
    {
      ScopedPlace([], global, scoped, i);
    }
  }

  lemma GlobalPlaces<T>(global: seq<Rule<T>>, scoped: seq<Scoped<T>>)
    requires Increasing(scoped)
    ensures
      var result := Weave([], global, scoped);
      forall j :: 0 <= j < |global| ==>
        var at := GlobalAt(scoped, j);
        at < |result| && result[at] == global[j]
  {
    var result := Weave([], global, scoped);
    forall j | 0 <= j < |global|
      ensures
        var at := GlobalAt(scoped, j);
        at < |result| && result[at] == global[j]
    {
      GlobalPlace([], global, scoped, j);
    }
  }

  /** Saving an edited list keeps both orders: the `i`-th scoped row returns to its own index, or to
      the place just behind the last global rule when too few remain, and the global rules fill the
      other places in order. */
  lemma EditedPlaces<T>(global: seq<Rule<T>>, scoped: seq<Scoped<T>>)
    requires Increasing(scoped)
    ensures
      var result := Weave([], global, scoped);
      && |result| == |global| + |scoped|
      && (forall i :: 0 <= i < |scoped| ==>
            var at := ScopedAt(global, scoped, i);
            0 <= at <= scoped[i].0 && at < |result| && result[at] == scoped[i].1)
      && (forall j :: 0 <= j < |global| ==>
            var at := GlobalAt(scoped, j);
            at < |result| && result[at] == global[j])
  {
    WeaveKeeps([], global, scoped);
    ScopedPlaces(global, scoped);
    GlobalPlaces(global, scoped);
  }
}
