/** Sequence helpers shared by the forecast and the historical aggregation:
    occurrence counts, first-seen de-duplication (the key order of an
    insertion-ordered dictionary), sums, extrema, the stable mode of
    `Counter.most_common(1)` and lexicographic sorting of strings. */
module Seqs {

  /** Number of occurrences of `x` in `s`. */
  function Count<T(==)>(s: seq<T>, x: T): (n: nat)
    ensures n <= |s|
    ensures n > 0 <==> x in s
  {
    if s == [] then 0
    else Count(s[..|s| - 1], x) + (if s[|s| - 1] == x then 1 else 0)
  }

  lemma {:induction false} CountAppend<T>(s: seq<T>, y: T, x: T)
    ensures Count(s + [y], x) == Count(s, x) + (if y == x then 1 else 0)
  {
    assert (s + [y])[..|s + [y]| - 1] == s;
  }

  /** Index of the first occurrence of `x` in `s`. */
  function FirstIndex<T(==)>(s: seq<T>, x: T): (i: nat)
    requires x in s
    ensures i < |s| && s[i] == x
    ensures forall j :: 0 <= j < i ==> s[j] != x
  {
    var p := s[..|s| - 1];
    if x in p then FirstIndex(p, x) else |s| - 1
  }

  lemma {:induction false} FirstIndexAppend<T>(s: seq<T>, y: T, x: T)
    requires x in s
    ensures x in s + [y] && FirstIndex(s + [y], x) == FirstIndex(s, x)
  {
    assert (s + [y])[..|s + [y]| - 1] == s;
  }

  predicate NoDuplicates<T(==)>(s: seq<T>) {
    forall i, j :: 0 <= i < j < |s| ==> s[i] != s[j]
  }

  /** The distinct elements of `s`, each kept at its first occurrence:
      the key order of a dictionary filled by visiting `s` in order. */
  function Distinct<T(==,!new)>(s: seq<T>): (d: seq<T>)
    ensures NoDuplicates(d)
    ensures forall x :: x in d <==> x in s
    ensures forall i, j :: 0 <= i < j < |d| ==> FirstIndex(s, d[i]) < FirstIndex(s, d[j])
    ensures |d| <= |s|
  {
    if s == [] then []
    else
      var p := s[..|s| - 1];
      var x := s[|s| - 1];
      var dp := Distinct(p);
      assert s == p + [x];
      forall y | y in p ensures FirstIndex(s, y) == FirstIndex(p, y) {
        FirstIndexAppend(p, x, y);
      }
      if x in dp then dp
      else
        assert forall y :: y in p ==> FirstIndex(s, y) < |s| - 1;
        assert FirstIndex(s, x) == |s| - 1;
        dp + [x]
  }

  /** One step of the dictionary filling: appending an element to the
      visited sequence appends it to the key order exactly when it is new. */
  lemma {:induction false} DistinctAppend<T(!new)>(s: seq<T>, x: T)
    ensures Distinct(s + [x]) == if x in Distinct(s) then Distinct(s) else Distinct(s) + [x]
  {
    assert (s + [x])[..|s + [x]| - 1] == s;
  }

  /** De-duplicating two sequences with the same pattern of repeats picks the
      same positions: the `k`-th distinct element of `t` sits where the `k`-th
      distinct element of `s` first occurs. */
  lemma {:induction false} DistinctAligned<T(!new), U(!new)>(s: seq<T>, t: seq<U>)
    requires |s| == |t|
    requires forall i, j :: 0 <= i < |s| && 0 <= j < |s| ==> (s[i] == s[j] <==> t[i] == t[j])
    ensures |Distinct(t)| == |Distinct(s)|
    ensures forall k :: 0 <= k < |Distinct(s)| ==> Distinct(t)[k] == t[FirstIndex(s, Distinct(s)[k])]
  {
    if s != [] {
      var n := |s| - 1;
      var p, x := s[..n], s[n];
      var q, y := t[..n], t[n];
      assert s == p + [x] && t == q + [y];
      DistinctAligned(p, q);
      DistinctAppend(p, x);
      DistinctAppend(q, y);
      assert x in p <==> y in q by {
        if x in p {
          var i :| 0 <= i < n && p[i] == x;
          assert q[i] == y;
        }
        if y in q {
          var i :| 0 <= i < n && q[i] == y;
          assert p[i] == x;
        }
      }
      forall z | z in p ensures FirstIndex(s, z) == FirstIndex(p, z) {
        FirstIndexAppend(p, x, z);
      }
      forall k | 0 <= k < |Distinct(p)|
        ensures Distinct(t)[k] == t[FirstIndex(s, Distinct(p)[k])]
      {
        assert Distinct(p)[k] in p;
      }
      if x !in p {
        assert FirstIndex(s, x) == n;
      }
    }
  }

  function Sum(s: seq<real>): real {
    if s == [] then 0.0 else Sum(s[..|s| - 1]) + s[|s| - 1]
  }

  /** Arithmetic mean; defined on non-empty sequences only, as the division
      by the length requires. */
  function Mean(s: seq<real>): (m: real)
    requires |s| > 0
    ensures m * (|s| as real) == Sum(s)
  {
    Sum(s) / (|s| as real)
  }

  function Min(s: seq<real>): (m: real)
    requires |s| > 0
    ensures m in s
    ensures forall x :: x in s ==> m <= x
  {
    if |s| == 1 then s[0]
    else
      var p := s[..|s| - 1];
      assert s == p + [s[|s| - 1]];
      var mp := Min(p);
      if s[|s| - 1] < mp then s[|s| - 1] else mp
  }

  function Max(s: seq<real>): (m: real)
    requires |s| > 0
    ensures m in s
    ensures forall x :: x in s ==> x <= m
  {
    if |s| == 1 then s[0]
    else
      var p := s[..|s| - 1];
      assert s == p + [s[|s| - 1]];
      var mp := Max(p);
      if s[|s| - 1] > mp then s[|s| - 1] else mp
  }

  /** The mean lies between the minimum and the maximum. */
  lemma {:induction false} MeanBetween(s: seq<real>)
    requires |s| > 0
    ensures Min(s) <= Mean(s) <= Max(s)
  {
    var n := |s| as real;
    SumBounds(s, Min(s), Max(s));
    DivBounds(Sum(s), n, Min(s), Max(s));
  }

  lemma DivBounds(x: real, n: real, lo: real, hi: real)
    requires n > 0.0 && n * lo <= x <= n * hi
    ensures lo <= x / n <= hi
  {
    assert x / n * n == x;
  }

  lemma {:induction false} SumBounds(s: seq<real>, lo: real, hi: real)
    requires forall x :: x in s ==> lo <= x <= hi
    ensures (|s| as real) * lo <= Sum(s) <= (|s| as real) * hi
  {
    if s != [] {
      var p := s[..|s| - 1];
      assert forall x :: x in p ==> x in s;
      SumBounds(p, lo, hi);
      assert s[|s| - 1] in s;
    }
  }

  /** Among `cands`, the leftmost candidate whose count in `s` is largest:
      a later candidate replaces the current best only with a strictly larger count. */
  function LeftmostMostFrequent<T(==)>(s: seq<T>, cands: seq<T>): (b: T)
    requires |cands| > 0
  {
    if |cands| == 1 then cands[0]
    else
      var bp := LeftmostMostFrequent(s, cands[..|cands| - 1]);
      var c := cands[|cands| - 1];
      if Count(s, c) > Count(s, bp) then c else bp
  }

  lemma {:induction false} LeftmostMostFrequentIsBest<T>(s: seq<T>, cands: seq<T>)
    requires |cands| > 0
    ensures var b := LeftmostMostFrequent(s, cands);
      && b in cands
      && (forall c :: c in cands ==> Count(s, c) <= Count(s, b))
      && (forall i :: 0 <= i < |cands| && Count(s, cands[i]) == Count(s, b) ==> FirstIndex(cands, b) <= i)
  {
    if |cands| > 1 {
      var p := cands[..|cands| - 1];
      var c := cands[|cands| - 1];
      assert cands == p + [c];
      LeftmostMostFrequentIsBest(s, p);
      var bp := LeftmostMostFrequent(s, p);
      FirstIndexAppend(p, c, bp);
      assert forall j :: 0 <= j < |p| ==> cands[j] == p[j];
      if Count(s, c) > Count(s, bp) {
        forall j | 0 <= j < |p| ensures Count(s, cands[j]) < Count(s, c) {
          assert p[j] in p;
        }
      }
    }
  }

  /** The value `Counter(s).most_common(1)[0][0]` yields: the leftmost
      element of `s` whose count is largest. */
  function Mode<T(==)>(s: seq<T>): (m: T)
    requires |s| > 0
    ensures m in s
    ensures forall y :: y in s ==> Count(s, y) <= Count(s, m)
  {
    LeftmostMostFrequentIsBest(s, s);
    LeftmostMostFrequent(s, s)
  }

  /** `m` is a most frequent element of `s`, the earliest seen among equally
      frequent ones: what `most_common` returns, since equal counts keep the
      order of first insertion. */
  ghost predicate IsStableMode<T>(s: seq<T>, m: T) {
    && m in s
    && (forall y :: y in s ==> Count(s, y) <= Count(s, m))
    && (forall y :: y in s && Count(s, y) == Count(s, m) ==> FirstIndex(s, m) <= FirstIndex(s, y))
  }

  lemma ModeIsStable<T>(s: seq<T>)
    requires |s| > 0
    ensures IsStableMode(s, Mode(s))
  {
    var m := Mode(s);
    LeftmostMostFrequentIsBest(s, s);
    forall y | y in s && Count(s, y) == Count(s, m)
      ensures FirstIndex(s, m) <= FirstIndex(s, y)
    {
      var i := FirstIndex(s, y);
      assert FirstIndex(s, m) <= i;
    }
  }

  /** The stable mode is unique, so the contract above determines `Mode`. */
  lemma StableModeUnique<T>(s: seq<T>, a: T, b: T)
    requires IsStableMode(s, a) && IsStableMode(s, b)
    ensures a == b
  {
    assert FirstIndex(s, a) == FirstIndex(s, b);
  }

  /** Lexicographic order on strings by code point, as Python compares `str`. */
  predicate LexLess(a: string, b: string) {
    if a == [] then b != []
    else if b == [] then false
    else a[0] < b[0] || (a[0] == b[0] && LexLess(a[1..], b[1..]))
  }

  lemma {:induction false} LexLessIrreflexive(a: string)
    ensures !LexLess(a, a)
  {
    if a != [] { LexLessIrreflexive(a[1..]); }
  }

  lemma {:induction false} LexLessTransitive(a: string, b: string, c: string)
    requires LexLess(a, b) && LexLess(b, c)
    ensures LexLess(a, c)
  {
    if a != [] && b != [] && c != [] && a[0] == b[0] && b[0] == c[0] {
      LexLessTransitive(a[1..], b[1..], c[1..]);
    }
  }

  lemma {:induction false} LexLessTotal(a: string, b: string)
    ensures a == b || LexLess(a, b) || LexLess(b, a)
  {
    if a != [] && b != [] && a[0] == b[0] {
      LexLessTotal(a[1..], b[1..]);
      if a[1..] == b[1..] {
        assert a == [a[0]] + a[1..] && b == [b[0]] + b[1..];
      }
    }
  }

  predicate StrictlySorted(s: seq<string>) {
    forall i, j :: 0 <= i < j < |s| ==> LexLess(s[i], s[j])
  }

  /** Inserts `x` into a strictly sorted sequence; no effect when already present. */
  function Insert(s: seq<string>, x: string): (r: seq<string>)
    requires StrictlySorted(s)
    ensures StrictlySorted(r)
    ensures forall y :: y in r <==> y in s || y == x
  {
    if s == [] then [x]
    else if x == s[0] then s
    else if LexLess(x, s[0]) then
      assert forall j :: 0 < j < |s| ==> LexLess(x, s[j]) by {
        forall j | 0 < j < |s| ensures LexLess(x, s[j]) { LexLessTransitive(x, s[0], s[j]); }
      }
      [x] + s
    else
      LexLessTotal(x, s[0]);
      var t := Insert(s[1..], x);
      assert forall y :: y in t ==> LexLess(s[0], y) by {
        forall y | y in t ensures LexLess(s[0], y) {
          if y != x {
            var k :| 0 <= k < |s[1..]| && s[1..][k] == y;
            assert s[k + 1] == y;
          }
        }
      }
      assert forall y :: y in s <==> y == s[0] || y in s[1..] by {
        assert s == [s[0]] + s[1..];
      }
      [s[0]] + t
  }

  /** The elements of `s` in ascending lexicographic order without repeats,
      as `groupby` lists string keys by default. */
  function SortedKeys(s: seq<string>): (r: seq<string>)
    ensures StrictlySorted(r)
    ensures forall y :: y in r <==> y in s
  {
    if s == [] then []
    else
      var p := s[..|s| - 1];
      assert s == p + [s[|s| - 1]];
      Insert(SortedKeys(p), s[|s| - 1])
  }

  lemma StrictlySortedNoDuplicates(s: seq<string>)
    requires StrictlySorted(s)
    ensures NoDuplicates(s)
  {
    forall i, j | 0 <= i < j < |s| ensures s[i] != s[j] {
      if s[i] == s[j] { LexLessIrreflexive(s[i]); }
    }
  }
}
