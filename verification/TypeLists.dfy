/** The type-list templates of viskores/List.h, a type being any value that can be
    compared for sameness. Each template is unrolled to keep instantiation shallow;
    each is proved equal to what it means on plain sequences. */
module TypeLists {
  import opened Arithmetic

  // ----- searching

  /** The first index of target in ts, or -1. */
  function FirstIndex<T(==)>(target: T, ts: seq<T>): (r: int)
    ensures -1 <= r < |ts|
  {
    if ts == [] then -1
    else if ts[0] == target then 0
    else
      var rest := FirstIndex(target, ts[1..]);
      if rest == -1 then -1 else rest + 1
  }

  /** One type at a time: nextIsTarget speaks of the type before ts. */
  function FindFirstOfCheckHead<T(==)>(nextIsTarget: bool, numSearched: int, target: T, ts: seq<T>): int
    decreases |ts|
  {
    if nextIsTarget then numSearched
    else if ts == [] then -1
    else FindFirstOfCheckHead(target == ts[0], numSearched + 1, target, ts[1..])
  }

  function FindFirstOfSplit4<T(==)>(oneInFirst4Matches: bool, numSearched: int, target: T, ts: seq<T>): int
    requires if oneInFirst4Matches then 4 <= |ts| else 5 <= |ts|
  {
    if oneInFirst4Matches then FindFirstOfCheckHead(target == ts[0], numSearched, target, ts[1..4])
    else FindFirstOfCheckHead(target == ts[4], numSearched + 4, target, ts[5..])
  }

  function FindFirstOfSplit8<T(==)>(oneInFirst8Matches: bool, numSearched: int, target: T, ts: seq<T>): int
    requires 12 <= |ts|
    decreases |ts|, 0
  {
    if oneInFirst8Matches then
      FindFirstOfSplit4(target == ts[0] || target == ts[1] || target == ts[2] || target == ts[3], numSearched, target, ts[..8])
    else FindFirstOfType(numSearched + 8, target, ts[8..])
  }

  /** From twelve types on the first eight are tested together, from six on the
      first four. */
  function FindFirstOfType<T(==)>(numSearched: int, target: T, ts: seq<T>): int
    decreases |ts|, 1
  {
    if |ts| >= 12 then
      FindFirstOfSplit8(target == ts[0] || target == ts[1] || target == ts[2] || target == ts[3]
                        || target == ts[4] || target == ts[5] || target == ts[6] || target == ts[7],
                        numSearched, target, ts)
    else if |ts| >= 6 then
      FindFirstOfSplit4(target == ts[0] || target == ts[1] || target == ts[2] || target == ts[3], numSearched, target, ts)
    else if |ts| >= 1 then FindFirstOfCheckHead(target == ts[0], numSearched, target, ts[1..])
    else -1
  }

  function ListIndexOf<T(==)>(ts: seq<T>, target: T): int {
    FindFirstOfType(0, target, ts)
  }

  predicate ListHas<T(==)>(ts: seq<T>, target: T) {
    ListIndexOf(ts, target) >= 0
  }

  // ----- appending

  function ListAppend<T>(lists: seq<seq<T>>): seq<T>
    decreases |lists|
  {
    if |lists| == 0 then []
    else if |lists| == 1 then lists[0]
    else if |lists| == 2 then lists[0] + lists[1]
    else if |lists| == 3 then lists[0] + lists[1] + lists[2]
    else if |lists| == 4 then lists[0] + lists[1] + lists[2] + lists[3]
    else if |lists| == 5 then lists[0] + lists[1] + lists[2] + lists[3] + lists[4]
    else if |lists| == 6 then lists[0] + lists[1] + lists[2] + lists[3] + lists[4] + lists[5]
    else if |lists| == 7 then lists[0] + lists[1] + lists[2] + lists[3] + lists[4] + lists[5] + lists[6]
    else
      var first8 := lists[0] + lists[1] + lists[2] + lists[3] + lists[4] + lists[5] + lists[6] + lists[7];
      if |lists| == 8 then first8 else ListAppend([first8] + lists[8..])
  }

  function Concat<T>(lists: seq<seq<T>>): seq<T> {
    if lists == [] then [] else lists[0] + Concat(lists[1..])
  }

  // ----- filling and reducing

  function ListFill<T>(t: T, n: nat): seq<T> {
    if n == 0 then []
    else if n == 1 then [t]
    else ListAppend([ListFill(t, n / 2), ListFill(t, n - n / 2)])
  }

  /** Nine or more are reduced eight at a time. */
  function ListReduce<T, R>(ts: seq<T>, operator: (R, T) -> R, result: R): R
    decreases |ts|
  {
    if |ts| == 0 then result
    else if |ts| >= 9 then ListReduce(ts[8..], operator, ListReduce(ts[..8], operator, result))
    else ListReduce(ts[1..], operator, operator(result, ts[0]))
  }

  function FoldLeft<T, R>(operator: (R, T) -> R, result: R, ts: seq<T>): R {
    if ts == [] then result else operator(FoldLeft(operator, result, ts[..|ts| - 1]), ts[|ts| - 1])
  }

  // ----- removing, intersecting, crossing

  function Singletons<T>(ts: seq<T>, remove: T -> bool): (r: seq<seq<T>>)
    ensures |r| == |ts|
  {
    seq(|ts|, i requires 0 <= i < |ts| => if remove(ts[i]) then [] else [ts[i]])
  }

  function ListRemoveIf<T>(ts: seq<T>, remove: T -> bool): seq<T> {
    ListAppend(Singletons(ts, remove))
  }

  function ListIntersect<T(==)>(list1: seq<T>, list2: seq<T>): seq<T> {
    ListRemoveIf(list2, t => !ListHas(list1, t))
  }

  function CrossRow<S, T>(a: S, bs: seq<T>): (r: seq<(S, T)>)
    ensures |r| == |bs|
  {
    seq(|bs|, j requires 0 <= j < |bs| => (a, bs[j]))
  }

  function ListCross<S, T>(list1: seq<S>, list2: seq<T>): seq<(S, T)> {
    ListAppend(seq(|list1|, i requires 0 <= i < |list1| => CrossRow(list1[i], list2)))
  }

  // ===== what they mean

  // ----- the search finds the first index

  lemma {:induction false} FirstIndexMeans<T>(target: T, ts: seq<T>)
    ensures var r := FirstIndex(target, ts);
            if r == -1 then target !in ts
            else ts[r] == target && forall q :: 0 <= q < r ==> ts[q] != target
  {
    if ts == [] || ts[0] == target {
    } else {
      FirstIndexMeans(target, ts[1..]);
      assert ts == [ts[0]] + ts[1..];
    }
  }

  /** Offset by how many types came before. */
  function Offset(n: int, r: int): int {
    if r == -1 then -1 else n + r
  }

  lemma {:induction false} CheckHeadFinds<T>(n: int, target: T, t: T, ts: seq<T>)
    ensures FindFirstOfCheckHead(target == t, n, target, ts) == Offset(n, FirstIndex(target, [t] + ts))
    decreases |ts|
  {
    assert ([t] + ts)[1..] == ts;
    if target == t || ts == [] {
    } else {
      CheckHeadFinds(n + 1, target, ts[0], ts[1..]);
      assert [ts[0]] + ts[1..] == ts;
    }
  }

  /** A prefix that holds the target decides; one that does not can be skipped. */
  lemma {:induction false} FirstIndexSplit<T>(target: T, ts: seq<T>, k: nat)
    requires k <= |ts|
    ensures target in ts[..k] ==> FirstIndex(target, ts) == FirstIndex(target, ts[..k])
    ensures target !in ts[..k] ==> FirstIndex(target, ts) == Offset(k, FirstIndex(target, ts[k..]))
  {
    if k > 0 {
      FirstIndexSplit(target, ts[1..], k - 1);
      assert ts[..k] == [ts[0]] + ts[1..][..k - 1];
      assert ts[..k][1..] == ts[1..][..k - 1];
      assert ts[k..] == ts[1..][k - 1..];
    } else {
      assert ts[0..] == ts;
    }
  }

  lemma Split4Finds<T>(n: int, target: T, ts: seq<T>)
    requires 6 <= |ts|
    ensures FindFirstOfSplit4(target in ts[..4], n, target, ts) == Offset(n, FirstIndex(target, ts))
  {
    FirstIndexSplit(target, ts, 4);
    FirstIndexMeans(target, ts[..4]);
    if target in ts[..4] {
      CheckHeadFinds(n, target, ts[0], ts[1..4]);
      assert [ts[0]] + ts[1..4] == ts[..4];
    } else {
      CheckHeadFinds(n + 4, target, ts[4], ts[5..]);
      assert [ts[4]] + ts[5..] == ts[4..];
      FirstIndexMeans(target, ts[4..]);
    }
  }

  lemma InFirst4<T>(target: T, ts: seq<T>)
    requires 4 <= |ts|
    ensures target in ts[..4] <==> target == ts[0] || target == ts[1] || target == ts[2] || target == ts[3]
  {
    assert ts[..4] == [ts[0], ts[1], ts[2], ts[3]];
  }

  lemma InFirst8<T>(target: T, ts: seq<T>)
    requires 8 <= |ts|
    ensures target in ts[..8] <==> (target == ts[0] || target == ts[1] || target == ts[2] || target == ts[3]
                                 || target == ts[4] || target == ts[5] || target == ts[6] || target == ts[7])
  {
    assert ts[..8] == [ts[0], ts[1], ts[2], ts[3], ts[4], ts[5], ts[6], ts[7]];
  }

  lemma {:induction false} FindFirstFinds<T>(n: int, target: T, ts: seq<T>)
    ensures FindFirstOfType(n, target, ts) == Offset(n, FirstIndex(target, ts))
    decreases |ts|
  {
    hide FirstIndex;
    if |ts| >= 12 {
      InFirst8(target, ts);
      FirstIndexSplit(target, ts, 8);
      FirstIndexMeans(target, ts[8..]);
      if target in ts[..8] {
        InFirst4(target, ts[..8]);
        assert ts[..8][..4] == ts[..4];
        Split4Finds(n, target, ts[..8]);
      } else {
        FindFirstFinds(n + 8, target, ts[8..]);
      }
    } else if |ts| >= 6 {
      InFirst4(target, ts);
      Split4Finds(n, target, ts);
    } else if |ts| >= 1 {
      CheckHeadFinds(n, target, ts[0], ts[1..]);
      assert [ts[0]] + ts[1..] == ts;
    } else {
      FirstIndexMeans(target, ts);
    }
  }

  /** The index of the target's first occurrence, or -1 exactly when there is none. */
  lemma ListIndexOfMeans<T>(ts: seq<T>, target: T)
    ensures var r := ListIndexOf(ts, target);
            if r == -1 then target !in ts
            else 0 <= r < |ts| && ts[r] == target && forall q :: 0 <= q < r ==> ts[q] != target
    ensures ListHas(ts, target) <==> target in ts
  {
    FindFirstFinds(0, target, ts);
    FirstIndexMeans(target, ts);
  }

  // ----- appending is concatenation

  lemma {:induction false} ConcatSplit<T>(lists: seq<seq<T>>, k: nat)
    requires k <= |lists|
    ensures Concat(lists) == Concat(lists[..k]) + Concat(lists[k..])
  {
    if k > 0 {
      ConcatSplit(lists[1..], k - 1);
      assert lists[..k][1..] == lists[1..][..k - 1];
      assert lists[k..] == lists[1..][k - 1..];
    } else {
      assert lists[0..] == lists;
    }
  }

  lemma ConcatNext<T>(lists: seq<seq<T>>, k: nat)
    requires k < |lists|
    ensures Concat(lists[..k + 1]) == Concat(lists[..k]) + lists[k]
  {
    ConcatSplit(lists[..k + 1], k);
    assert lists[..k + 1][..k] == lists[..k];
    assert lists[..k + 1][k..] == [lists[k]];
    assert Concat([lists[k]]) == lists[k] + Concat([]);
  }

  lemma ConcatFirst<T>(lists: seq<seq<T>>)
    ensures 1 <= |lists| ==> Concat(lists[..1]) == lists[0]
    ensures 2 <= |lists| ==> Concat(lists[..2]) == lists[0] + lists[1]
    ensures 3 <= |lists| ==> Concat(lists[..3]) == lists[0] + lists[1] + lists[2]
    ensures 4 <= |lists| ==> Concat(lists[..4]) == lists[0] + lists[1] + lists[2] + lists[3]
    ensures 5 <= |lists| ==> Concat(lists[..5]) == lists[0] + lists[1] + lists[2] + lists[3] + lists[4]
    ensures 6 <= |lists| ==> Concat(lists[..6]) == lists[0] + lists[1] + lists[2] + lists[3] + lists[4] + lists[5]
    ensures 7 <= |lists| ==> Concat(lists[..7]) == lists[0] + lists[1] + lists[2] + lists[3] + lists[4] + lists[5] + lists[6]
    ensures 8 <= |lists| ==>
              Concat(lists[..8]) == lists[0] + lists[1] + lists[2] + lists[3] + lists[4] + lists[5] + lists[6] + lists[7]
  {
    assert Concat(lists[..0]) == [];
    hide Concat;
    if 1 <= |lists| { ConcatNext(lists, 0); assert [] + lists[0] == lists[0]; }
    if 2 <= |lists| { ConcatNext(lists, 1); }
    if 3 <= |lists| { ConcatNext(lists, 2); }
    if 4 <= |lists| { ConcatNext(lists, 3); }
    if 5 <= |lists| { ConcatNext(lists, 4); }
    if 6 <= |lists| { ConcatNext(lists, 5); }
    if 7 <= |lists| { ConcatNext(lists, 6); }
    if 8 <= |lists| { ConcatNext(lists, 7); }
  }

  lemma {:induction false} ListAppendIsConcat<T>(lists: seq<seq<T>>)
    ensures ListAppend(lists) == Concat(lists)
    decreases |lists|
  {
    ConcatFirst(lists);
    if |lists| == 0 {
    } else if |lists| <= 8 {
      assert lists[..|lists|] == lists;
    } else {
      var next := [Concat(lists[..8])] + lists[8..];
      ListAppendIsConcat(next);
      ConcatSplit(lists, 8);
      assert next[1..] == lists[8..];
    }
  }

  // ----- filling

  lemma {:induction false} ListFillIsRepeat<T>(t: T, n: nat)
    ensures ListFill(t, n) == seq(n, i => t)
  {
    if n >= 2 {
      ListFillIsRepeat(t, n / 2);
      ListFillIsRepeat(t, n - n / 2);
    }
  }

  // ----- reducing is the left fold

  lemma {:induction false} FoldLeftFirst<T, R>(operator: (R, T) -> R, result: R, ts: seq<T>, k: nat)
    requires k <= |ts|
    ensures FoldLeft(operator, result, ts) == FoldLeft(operator, FoldLeft(operator, result, ts[..k]), ts[k..])
    decreases |ts|
  {
    if k == |ts| {
      assert ts[..k] == ts;
    } else {
      var n := |ts| - 1;
      FoldLeftFirst(operator, result, ts[..n], k);
      assert ts[..n][..k] == ts[..k];
      assert ts[k..][..|ts[k..]| - 1] == ts[..n][k..];
    }
  }

  lemma {:induction false} ListReduceIsFold<T, R>(ts: seq<T>, operator: (R, T) -> R, result: R)
    ensures ListReduce(ts, operator, result) == FoldLeft(operator, result, ts)
    decreases |ts|
  {
    if |ts| >= 9 {
      ListReduceIsFold(ts[..8], operator, result);
      ListReduceIsFold(ts[8..], operator, FoldLeft(operator, result, ts[..8]));
      FoldLeftFirst(operator, result, ts, 8);
    } else if |ts| >= 1 {
      ListReduceIsFold(ts[1..], operator, operator(result, ts[0]));
      FoldLeftFirst(operator, result, ts, 1);
      assert ts[..1] == [ts[0]];
      assert FoldLeft(operator, result, [ts[0]]) == operator(FoldLeft(operator, result, [ts[0]][..0]), ts[0]);
    }
  }

  // ----- removing keeps the others in order

  function Filter<T>(ts: seq<T>, remove: T -> bool): seq<T> {
    if ts == [] then []
    else (if remove(ts[0]) then [] else [ts[0]]) + Filter(ts[1..], remove)
  }

  lemma {:induction false} ConcatSingletons<T>(ts: seq<T>, remove: T -> bool)
    ensures Concat(Singletons(ts, remove)) == Filter(ts, remove)
  {
    if ts == [] {
    } else {
      ConcatSingletons(ts[1..], remove);
      assert Singletons(ts, remove)[1..] == Singletons(ts[1..], remove);
    }
  }

  lemma ListRemoveIfIsFilter<T>(ts: seq<T>, remove: T -> bool)
    ensures ListRemoveIf(ts, remove) == Filter(ts, remove)
  {
    ListAppendIsConcat(Singletons(ts, remove));
    ConcatSingletons(ts, remove);
  }

  lemma {:induction false} FilterCong<T>(ts: seq<T>, f: T -> bool, g: T -> bool)
    requires forall t :: t in ts ==> f(t) == g(t)
    ensures Filter(ts, f) == Filter(ts, g)
  {
    if ts == [] {
    } else {
      FilterCong(ts[1..], f, g);
    }
  }

  /** The types of the second list that are in the first, in the second's order. */
  lemma ListIntersectMeans<T(!new)>(list1: seq<T>, list2: seq<T>)
    ensures ListIntersect(list1, list2) == Filter(list2, t => t !in list1)
  {
    forall t | t in list2 ensures ListHas(list1, t) <==> t in list1 { ListIndexOfMeans(list1, t); }
    ListRemoveIfIsFilter(list2, t => !ListHas(list1, t));
    FilterCong(list2, t => !ListHas(list1, t), t => t !in list1);
  }

  // ----- the cross product

  lemma {:induction false} ConcatRows<T>(lists: seq<seq<T>>, width: nat, i: nat, j: nat)
    requires forall k :: 0 <= k < |lists| ==> |lists[k]| == width
    requires i < |lists| && j < width
    ensures |Concat(lists)| == Times(|lists|, width)
    ensures Times(i, width) + j < |Concat(lists)| && Concat(lists)[Times(i, width) + j] == lists[i][j]
    decreases |lists|
  {
    hide Times;
    var rest := lists[1..];
    TimesNext(|rest|, width);
    TimesNext(0, width);
    if rest == [] {
      assert Concat(rest) == [];
    } else {
      ConcatRows(rest, width, if i == 0 then 0 else i - 1, j);
      if i > 0 { TimesNext(i - 1, width); }
    }
  }

  /** Pair (i, j) of the product stands at index i n + j, n the second list's size. */
  lemma ListCrossMeans<S, T>(list1: seq<S>, list2: seq<T>, i: nat, j: nat)
    requires i < |list1| && j < |list2|
    ensures |ListCross(list1, list2)| == Times(|list1|, |list2|)
    ensures Times(i, |list2|) + j < |ListCross(list1, list2)|
    ensures ListCross(list1, list2)[Times(i, |list2|) + j] == (list1[i], list2[j])
  {
    var rows := seq(|list1|, i requires 0 <= i < |list1| => CrossRow(list1[i], list2));
    ListAppendIsConcat(rows);
    ConcatRows(rows, |list2|, i, j);
  }
}
