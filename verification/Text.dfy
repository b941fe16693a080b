/** The string operations of the Rust standard library that the models use. */
module Text {
  import Sorting

  /** `char::is_whitespace`: the code points with the Unicode White_Space property. */
  predicate White(c: char) {
    var n := c as int;
    || 9 <= n <= 13 || n == 32 || n == 0x85 || n == 0xA0 || n == 0x1680
    || 0x2000 <= n <= 0x200A || n == 0x2028 || n == 0x2029 || n == 0x202F
    || n == 0x205F || n == 0x3000
  }

  function TrimStart(s: string): (r: string)
    ensures r == [] || !White(r[0])
    ensures |r| <= |s| && r == s[|s| - |r|..]
    ensures s != [] && !White(s[0]) ==> r == s
  {
    if s != [] && White(s[0]) then TrimStart(s[1..]) else s
  }

  function TrimEnd(s: string): (r: string)
    ensures r == [] || !White(r[|r| - 1])
    ensures r <= s
    ensures s != [] && !White(s[|s| - 1]) ==> r == s
  {
    if s != [] && White(s[|s| - 1]) then TrimEnd(s[..|s| - 1]) else s
  }

  function Trim(s: string): (r: string)
    ensures r == [] || (!White(r[0]) && !White(r[|r| - 1]))
  {
    TrimEnd(TrimStart(s))
  }

  lemma TrimIdempotent(s: string)
    ensures Trim(Trim(s)) == Trim(s)
  {
    var t := Trim(s);
    if t != [] {
      assert TrimStart(t) == t;
    }
  }

  /** Trimming removes white space at both ends, all of it and nothing else. */
  lemma TrimSplits(s: string) returns (before: string, after: string)
    ensures s == before + Trim(s) + after
    ensures (forall c <- before :: White(c)) && (forall c <- after :: White(c))
  {
    before := TrimmedStart(s);
    var t := TrimStart(s);
    after := TrimmedEnd(t);
    Regroup(before, t, TrimEnd(t), after);
  }

  lemma Regroup(before: string, t: string, middle: string, after: string)
    requires t == middle + after
    ensures before + t == before + middle + after
  {
  }

  lemma {:induction false} TrimmedStart(s: string) returns (before: string)
    ensures s == before + TrimStart(s) && forall c <- before :: White(c)
  {
    if s != "" && White(s[0]) {
      var rest := TrimmedStart(s[1..]);
      before := [s[0]] + rest;
      assert s == [s[0]] + s[1..];
    } else {
      before := "";
    }
  }

  lemma {:induction false} TrimmedEnd(s: string) returns (after: string)
    ensures s == TrimEnd(s) + after && forall c <- after :: White(c)
  {
    if s != "" && White(s[|s| - 1]) {
      var rest := TrimmedEnd(s[..|s| - 1]);
      after := rest + [s[|s| - 1]];
      assert s == s[..|s| - 1] + [s[|s| - 1]];
    } else {
      after := "";
      assert s + after == s;
    }
  }

  lemma {:induction false} AllWhiteTrimsAway(s: string)
    requires forall c <- s :: White(c)
    ensures TrimStart(s) == ""
  {
    if s != "" {
      assert s[0] in s && forall c <- s[1..] :: c in s;
      AllWhiteTrimsAway(s[1..]);
    }
  }

  lemma TrimEmptyIff(s: string)
    ensures Trim(s) == "" <==> forall c <- s :: White(c)
  {
    if forall c <- s :: White(c) {
      AllWhiteTrimsAway(s);
    }
    if Trim(s) == "" {
      var before, after := TrimSplits(s);
      assert s == before + after;
    }
  }

  lemma TrimKeeps(s: string)
    requires s != "" && !White(s[0]) && !White(s[|s| - 1])
    ensures Trim(s) == s
  {
  }

  lemma {:induction false} TrimStartWhite(w: string, s: string)
    requires forall c <- w :: White(c)
    ensures TrimStart(w + s) == TrimStart(s)
  {
    if w == "" {
      assert w + s == s;
    } else {
      assert (w + s)[0] == w[0] && (w + s)[1..] == w[1..] + s;
      assert w[0] in w && forall c <- w[1..] :: c in w;
      TrimStartWhite(w[1..], s);
    }
  }

  lemma {:induction false} TrimEndWhite(s: string, w: string)
    requires forall c <- w :: White(c)
    ensures TrimEnd(s + w) == TrimEnd(s)
    decreases |w|
  {
    if w == "" {
      assert s + w == s;
    } else {
      var last := |w| - 1;
      assert w[last] in w && (s + w)[|s + w| - 1] == w[last];
      assert (s + w)[..|s + w| - 1] == s + w[..last];
      TrimEndWhite(s, w[..last]);
    }
  }

  /** Trimming recovers what stands between white space. */
  lemma TrimBetween(before: string, s: string, after: string)
    requires (forall c <- before :: White(c)) && (forall c <- after :: White(c))
    requires s != "" && !White(s[0]) && !White(s[|s| - 1])
    ensures Trim(before + s + after) == s
  {
    assert before + s + after == before + (s + after);
    TrimStartWhite(before, s + after);
    assert (s + after)[0] == s[0];
    TrimEndWhite(s, after);
  }

  lemma TrimPadded(c: char, s: string)
    requires White(c) && s != "" && !White(s[0]) && !White(s[|s| - 1])
    ensures Trim([c] + s) == s
  {
    assert ([c] + s)[1..] == s;
  }

  function LowerChar(c: char): char {
    if 'A' <= c <= 'Z' then (c as int + 32) as char else c
  }

  function Lower(s: string): string {
    if s == "" then "" else [LowerChar(s[0])] + Lower(s[1..])
  }

  lemma {:induction false} LowerLength(s: string)
    ensures |Lower(s)| == |s|
  {
    if s != "" { LowerLength(s[1..]); }
  }

  /** Lower-casing changes exactly the letters A to Z. */
  lemma {:induction false} LowerMeaning(s: string)
    ensures |Lower(s)| == |s|
    ensures forall i :: 0 <= i < |s| ==>
              Lower(s)[i] == if 'A' <= s[i] <= 'Z' then (s[i] as int + 32) as char else s[i]
  {
    if s != "" {
      LowerMeaning(s[1..]);
      forall i | 0 <= i < |s|
        ensures |Lower(s)| == |s| && Lower(s)[i] == LowerChar(s[i])
      {
        assert i > 0 ==> s[i] == s[1..][i - 1] && Lower(s)[i] == Lower(s[1..])[i - 1];
      }
    }
  }

  lemma LowerHead(a: string, b: string)
    requires a != "" && b != "" && LowerChar(a[0]) != LowerChar(b[0])
    ensures Lower(a) != Lower(b)
  {
    assert Lower(a)[0] == LowerChar(a[0]);
    assert Lower(b)[0] == LowerChar(b[0]);
  }

  lemma TrimHead(s: string)
    requires Trim(s) != ""
    ensures s != "" && (White(s[0]) || s[0] == Trim(s)[0])
  {
  }

  /** `str::split` on a set of separators: always at least one part. */
  function Split(s: string, separators: set<char>): (parts: seq<string>)
    ensures |parts| >= 1
  {
    if s == "" then [""]
    else
      var rest := Split(s[1..], separators);
      if s[0] in separators then [""] + rest
      else [[s[0]] + rest[0]] + rest[1..]
  }

  lemma SplitStep(c: char, s: string, separators: set<char>)
    ensures
      var rest := Split(s, separators);
      Split([c] + s, separators) == if c in separators then [""] + rest else [[c] + rest[0]] + rest[1..]
  {
    assert ([c] + s)[0] == c && ([c] + s)[1..] == s;
  }

  lemma PrependFirst(c: char, a: seq<string>, b: seq<string>)
    requires a != []
    ensures [[c] + (a + b)[0]] + (a + b)[1..] == [[c] + a[0]] + a[1..] + b
  {
    assert (a + b)[1..] == a[1..] + b;
  }

  /** A separator splits a string into the parts before it and the parts behind it. */
  lemma {:induction false} SplitAtSeparator(a: string, sep: char, b: string, separators: set<char>)
    requires sep in separators
    ensures Split(a + [sep] + b, separators) == Split(a, separators) + Split(b, separators)
  {
    if a == "" {
      assert a + [sep] + b == [sep] + b;
      SplitStep(sep, b, separators);
    } else {
      var rest := a[1..] + [sep] + b;
      assert a + [sep] + b == [a[0]] + rest && a == [a[0]] + a[1..];
      SplitAtSeparator(a[1..], sep, b, separators);
      SplitStep(a[0], rest, separators);
      SplitStep(a[0], a[1..], separators);
      if a[0] in separators {
        assert [""] + (Split(a[1..], separators) + Split(b, separators))
            == [""] + Split(a[1..], separators) + Split(b, separators);
      } else {
        PrependFirst(a[0], Split(a[1..], separators), Split(b, separators));
      }
    }
  }

  lemma {:induction false} SplitNowhere(s: string, separators: set<char>)
    requires forall c <- s :: c !in separators
    ensures Split(s, separators) == [s]
  {
    if s != "" {
      assert s[0] in s && forall c <- s[1..] :: c in s;
      SplitNowhere(s[1..], separators);
      assert s == [s[0]] + s[1..];
    }
  }

  /** Lexicographic order by code point, the order of `String`. */
  predicate Leq(a: string, b: string) {
    a == "" || (b != "" && (a[0] < b[0] || (a[0] == b[0] && Leq(a[1..], b[1..]))))
  }

  lemma {:induction false} LeqAntisymmetric(a: string, b: string)
    requires Leq(a, b) && Leq(b, a)
    ensures a == b
  {
    if a != "" {
      LeqAntisymmetric(a[1..], b[1..]);
      assert a == [a[0]] + a[1..] && b == [b[0]] + b[1..];
    }
  }

  lemma {:induction false} LeqTransitive(a: string, b: string, c: string)
    requires Leq(a, b) && Leq(b, c)
    ensures Leq(a, c)
  {
    if a != "" && a[0] == b[0] == c[0] {
      LeqTransitive(a[1..], b[1..], c[1..]);
    }
  }

  lemma {:induction false} LeqConnected(a: string, b: string)
    ensures Leq(a, b) || Leq(b, a)
  {
    if a != "" && b != "" && a[0] == b[0] {
      LeqConnected(a[1..], b[1..]);
    }
  }

  lemma LeqIsTotalOrder()
    ensures Sorting.TotalOrder(Leq)
  {
    forall a, b ensures Leq(a, b) || Leq(b, a) { LeqConnected(a, b); }
    forall a, b, c | Leq(a, b) && Leq(b, c) ensures Leq(a, c) { LeqTransitive(a, b, c); }
    forall a, b | Leq(a, b) && Leq(b, a) ensures a == b { LeqAntisymmetric(a, b); }
  }
}
