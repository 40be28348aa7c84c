/** Sums of integer sequences, and what updating one element does to them. */
module IntSums {

  function SumSeq(s: seq<int>): int {
    if s == [] then 0 else SumSeq(s[..|s| - 1]) + s[|s| - 1]
  }

  lemma {:induction false} SumUpdate(s: seq<int>, t: nat, v: int)
    requires t < |s|
    ensures SumSeq(s[t := v]) == SumSeq(s) - s[t] + v
  {
    var n := |s| - 1;
    if t == n {
      assert s[t := v][..n] == s[..n];
    } else {
      assert s[t := v][..n] == s[..n][t := v];
      SumUpdate(s[..n], t, v);
    }
  }

  lemma {:induction false} SumAtMost(s: seq<int>, w: int)
    requires forall t :: 0 <= t < |s| ==> s[t] <= w
    ensures SumSeq(s) <= |s| * w
  {
    if s == [] {
    } else {
      SumAtMost(s[..|s| - 1], w);
    }
  }

  lemma {:induction false} SumConstant(s: seq<int>, w: int)
    requires forall t :: 0 <= t < |s| ==> s[t] == w
    ensures SumSeq(s) == |s| * w
  {
    if s == [] {
    } else {
      SumConstant(s[..|s| - 1], w);
    }
  }

  lemma {:induction false} SumPlus(a: seq<int>, b: seq<int>, c: seq<int>, m: int)
    requires |a| == |b| == |c|
    requires forall t :: 0 <= t < |a| ==> c[t] == a[t] + m * b[t]
    ensures SumSeq(c) == SumSeq(a) + m * SumSeq(b)
  {
    if a == [] {
    } else {
      var n := |a| - 1;
      SumPlus(a[..n], b[..n], c[..n], m);
      assert m * (SumSeq(b[..n]) + b[n]) == m * SumSeq(b[..n]) + m * b[n];
    }
  }

  predicate DistinctIndices(log: seq<nat>, n: nat) {
    && (forall k :: 0 <= k < |log| ==> log[k] < n)
    && (forall j, k :: 0 <= j < k < |log| ==> log[j] != log[k])
  }

  /** Twice the sum of m k + b over k < l, and of w over the other size - l elements. */
  function RankBound(m: int, b: int, w: int, l: int, size: int): int {
    m * (l * (l - 1)) + 2 * b * l + 2 * (size - l) * w
  }

  lemma RankStep(m: int, b: int, w: int, l: int, size: int, v: int)
    requires v <= m * l + b
    ensures RankBound(m, b, w, l, size) - 2 * w + 2 * v <= RankBound(m, b, w, l + 1, size)
  {
    assert m * ((l + 1) * l) == m * (l * (l - 1)) + m * (2 * l) by { assert (l + 1) * l == l * (l - 1) + 2 * l; }
  }

  /** When the k-th listed element is at most m k + b and every other at most w. */
  lemma {:induction false} SumByRank(s: seq<int>, log: seq<nat>, m: int, b: int, w: int)
    requires DistinctIndices(log, |s|)
    requires forall k :: 0 <= k < |log| ==> s[log[k]] <= m * k + b
    requires forall t :: 0 <= t < |s| && t !in log ==> s[t] <= w
    ensures 2 * SumSeq(s) <= RankBound(m, b, w, |log|, |s|)
    decreases |log|
  {
    if log == [] {
      SumAtMost(s, w);
    } else {
      hide RankBound;
      var n := |log| - 1;
      var t := log[n];
      assert log == log[..n] + [t];
      SumByRank(s[t := w], log[..n], m, b, w);
      SumUpdate(s, t, w);
      RankStep(m, b, w, n, |s|, s[t]);
    }
  }
}
