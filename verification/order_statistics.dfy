/** Sorting, counting, and percentiles of a list of samples. */
module OrderStatistics {

  function Insert(x: nat, s: seq<nat>): seq<nat> {
    if s == [] || x <= s[0] then [x] + s else [s[0]] + Insert(x, s[1..])
  }

  /** The samples in ascending order. */
  function Sort(s: seq<nat>): (t: seq<nat>)
    ensures |t| == |s|
  {
    if s == [] then [] else InsertLength(s[0], Sort(s[1..])); Insert(s[0], Sort(s[1..]))
  }

  lemma {:induction false} InsertLength(x: nat, s: seq<nat>)
    ensures |Insert(x, s)| == |s| + 1
  {
    if s != [] && x > s[0] {
      InsertLength(x, s[1..]);
    }
  }

  ghost predicate Ascending(s: seq<nat>) {
    forall i, j :: 0 <= i <= j < |s| ==> s[i] <= s[j]
  }

  lemma {:induction false} InsertAscending(x: nat, s: seq<nat>)
    requires Ascending(s)
    ensures Ascending(Insert(x, s))
    ensures forall y :: y in Insert(x, s) <==> y == x || y in s
  {
    if s != [] && x > s[0] {
      var t := Insert(x, s[1..]);
      InsertAscending(x, s[1..]);
      assert forall i :: 0 <= i < |t| ==> t[i] in t;
      assert forall y :: y in s <==> y == s[0] || y in s[1..];
    }
  }

  lemma {:induction false} SortAscending(s: seq<nat>)
    ensures Ascending(Sort(s))
    ensures forall y :: y in Sort(s) <==> y in s
  {
    if s != [] {
      SortAscending(s[1..]);
      InsertAscending(s[0], Sort(s[1..]));
      assert forall y :: y in s <==> y == s[0] || y in s[1..];
    }
  }

  /** How many samples are smaller than x, and how many are not larger. */
  function CountBelow(s: seq<nat>, x: nat): nat {
    if s == [] then 0 else (if s[0] < x then 1 else 0) + CountBelow(s[1..], x)
  }

  function CountUpTo(s: seq<nat>, x: nat): nat {
    if s == [] then 0 else (if s[0] <= x then 1 else 0) + CountUpTo(s[1..], x)
  }

  lemma {:induction false} InsertCounts(v: nat, s: seq<nat>, x: nat)
    ensures CountBelow(Insert(v, s), x) == (if v < x then 1 else 0) + CountBelow(s, x)
    ensures CountUpTo(Insert(v, s), x) == (if v <= x then 1 else 0) + CountUpTo(s, x)
  {
    if s == [] || v <= s[0] {
      assert ([v] + s)[1..] == s;
    } else {
      InsertCounts(v, s[1..], x);
      assert ([s[0]] + Insert(v, s[1..]))[1..] == Insert(v, s[1..]);
    }
  }

  lemma {:induction false} SortCounts(s: seq<nat>, x: nat)
    ensures CountBelow(Sort(s), x) == CountBelow(s, x)
    ensures CountUpTo(Sort(s), x) == CountUpTo(s, x)
  {
    if s != [] {
      SortCounts(s[1..], x);
      InsertCounts(s[0], Sort(s[1..]), x);
    }
  }

  /** In ascending order, position i holds x exactly when fewer than i+1 samples are below x and more than i
      are not above it. */
  lemma {:induction false} PositionByCounts(t: seq<nat>, i: nat, x: nat)
    requires Ascending(t) && i < |t|
    ensures t[i] == x <==> CountBelow(t, x) <= i < CountUpTo(t, x)
    decreases i
  {
    if t[0] > x {
      NoneUpTo(t, x);
    } else if i == 0 {
      if t[0] == x {
        NoneBelow(t, x);
      }
    } else {
      PositionByCounts(t[1..], i - 1, x);
      if t[0] == x {
        NoneBelow(t, x);
      }
    }
  }

  lemma {:induction false} NoneUpTo(t: seq<nat>, x: nat)
    requires forall v <- t :: v > x
    ensures CountUpTo(t, x) == 0
  {
    if t != [] {
      assert t[0] in t && forall v <- t[1..] :: v in t;
      NoneUpTo(t[1..], x);
    }
  }

  lemma {:induction false} NoneBelow(t: seq<nat>, x: nat)
    requires forall v <- t :: v >= x
    ensures CountBelow(t, x) == 0
  {
    if t != [] {
      assert t[0] in t && forall v <- t[1..] :: v in t;
      NoneBelow(t[1..], x);
    }
  }

  // ---- Percentiles ----

  /** The position a percentile is read from: p percent of the way, never past the last sample. */
  function Rank(n: nat, p: real): (i: nat)
    requires n > 0 && p >= 0.0
    ensures i < n
  {
    var idx := (p / 100.0 * n as real).Floor;
    if idx >= n then n - 1 else idx
  }

  /** Which position that is: the last one exactly when p percent of n reach it, and otherwise the whole part
      of p percent of n. */
  lemma RankIsPercent(n: nat, p: real)
    requires n > 0 && p >= 0.0
    ensures var part := p * n as real / 100.0;
            && (Rank(n, p) == n - 1 <==> part >= (n - 1) as real)
            && (part < (n - 1) as real ==> Rank(n, p) as real <= part < (Rank(n, p) + 1) as real)
  {
    assert p / 100.0 * n as real == p * n as real / 100.0;
  }

  function Percentile(s: seq<nat>, p: real): nat
    requires p >= 0.0
  {
    if s == [] then 0 else Sort(s)[Rank(|s|, p)]
  }

  /** The percentile is the order statistic of its rank: the one value with at most rank samples below it and
      more than rank samples not above it. It does not depend on the order of the samples. */
  lemma {:induction false} PercentileIsOrderStatistic(s: seq<nat>, p: real, x: nat)
    requires s != [] && p >= 0.0
    ensures Percentile(s, p) in s
    ensures Percentile(s, p) == x <==> CountBelow(s, x) <= Rank(|s|, p) < CountUpTo(s, x)
  {
    SortAscending(s);
    SortCounts(s, x);
    PositionByCounts(Sort(s), Rank(|s|, p), x);
  }

  lemma RankMonotone(n: nat, p: real, q: real)
    requires n > 0 && 0.0 <= p <= q
    ensures Rank(n, p) <= Rank(n, q)
  {
    var a, b, m := p / 100.0, q / 100.0, n as real;
    assert (b - a) * m >= 0.0;
    assert b * m - a * m == (b - a) * m;
  }

  lemma {:induction false} PercentileMonotone(s: seq<nat>, p: real, q: real)
    requires 0.0 <= p <= q
    ensures Percentile(s, p) <= Percentile(s, q)
  {
    if s != [] {
      RankMonotone(|s|, p, q);
      SortAscending(s);
    }
  }

  function MinOf(s: seq<nat>): (m: nat)
    requires s != []
    ensures m in s && forall v <- s :: m <= v
  {
    if |s| == 1 then s[0]
    else
      var m := MinOf(s[1..]);
      assert forall v <- s :: v == s[0] || v in s[1..];
      if s[0] <= m then s[0] else m
  }

  function MaxOf(s: seq<nat>): (m: nat)
    requires s != []
    ensures m in s && forall v <- s :: v <= m
  {
    if |s| == 1 then s[0]
    else
      var m := MaxOf(s[1..]);
      assert forall v <- s :: v == s[0] || v in s[1..];
      if s[0] >= m then s[0] else m
  }
}
