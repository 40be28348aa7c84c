/** Nested vectors and their flat form (viskores/VecFlat.h). The sizes of the
    nesting levels, outermost first, stand for the C++ type. */
module VecFlat {
  import opened Arithmetic

  datatype Nested<T> = Component(value: T) | Vec(items: seq<Nested<T>>)

  type Sizes = seq<nat>

  predicate HasType<T>(v: Nested<T>, sizes: Sizes) {
    if sizes == [] then v.Component?
    else v.Vec? && |v.items| == sizes[0] && forall i :: 0 <= i < |v.items| ==> HasType(v.items[i], sizes[1..])
  }

  function TotalNumComponents(sizes: Sizes): nat {
    if sizes == [] then 1 else Times(sizes[0], TotalNumComponents(sizes[1..]))
  }

  /** Slot index of the flat form, by division and remainder. */
  function GetFlatVecComponent<T>(v: Nested<T>, sizes: Sizes, index: nat): T
    requires HasType(v, sizes) && index < TotalNumComponents(sizes)
  {
    if sizes == [] then v.value
    else
      var subSize := TotalNumComponents(sizes[1..]);
      SubIndex(sizes[0], subSize, index);
      GetFlatVecComponent(v.items[index / subSize], sizes[1..], index % subSize)
  }

  /** The components in depth-first order. */
  function Flatten<T>(v: Nested<T>, sizes: Sizes): (s: seq<T>)
    requires HasType(v, sizes)
    ensures |s| == TotalNumComponents(sizes)
    decreases |sizes|, 1, 0
  {
    if sizes == [] then [v.value] else FlattenItems(v.items, sizes[1..])
  }

  function FlattenItems<T>(items: seq<Nested<T>>, sizes: Sizes): (s: seq<T>)
    requires forall i :: 0 <= i < |items| ==> HasType(items[i], sizes)
    ensures |s| == Times(|items|, TotalNumComponents(sizes))
    decreases |sizes|, 2, |items|
  {
    if items == [] then [] else
      var n := |items| - 1;
      TimesNext(n, TotalNumComponents(sizes));
      FlattenItems(items[..n], sizes) + Flatten(items[n], sizes)
  }

  /** The nested vector whose components are s. */
  function Nest<T>(s: seq<T>, sizes: Sizes): (v: Nested<T>)
    requires |s| == TotalNumComponents(sizes)
    ensures HasType(v, sizes)
    decreases |sizes|, 1, 0
  {
    if sizes == [] then Component(s[0]) else Vec(NestItems(s, sizes[0], sizes[1..]))
  }

  function NestItems<T>(s: seq<T>, n: nat, sizes: Sizes): (items: seq<Nested<T>>)
    requires |s| == Times(n, TotalNumComponents(sizes))
    ensures |items| == n && forall i :: 0 <= i < n ==> HasType(items[i], sizes)
    decreases |sizes|, 2, n
  {
    if n == 0 then [] else
      TimesNext(n - 1, TotalNumComponents(sizes));
      var m := Times(n - 1, TotalNumComponents(sizes));
      NestItems(s[..m], n - 1, sizes) + [Nest(s[m..], sizes)]
  }

  // ----- the two copies

  /** s with its elements from the offset on replaced by t. */
  function Overwrite<T>(s: seq<T>, offset: nat, t: seq<T>): (r: seq<T>)
    requires offset + |t| <= |s|
    ensures |r| == |s|
  {
    s[..offset] + t + s[offset + |t|..]
  }

  lemma OverwriteNone<T>(s: seq<T>, offset: nat)
    requires offset <= |s|
    ensures Overwrite(s, offset, []) == s
  {
  }

  lemma OverwriteOne<T>(s: seq<T>, offset: nat, v: T)
    requires offset < |s|
    ensures Overwrite(s, offset, [v]) == s[offset := v]
  {
  }

  lemma OverwriteNext<T>(s: seq<T>, offset: nat, t: seq<T>, u: seq<T>)
    requires offset + |t| + |u| <= |s|
    ensures Overwrite(Overwrite(s, offset, t), offset + |t|, u) == Overwrite(s, offset, t + u)
  {
  }

  /** The n slots from the offset on, each once and in order. */
  function Slots(offset: nat, n: nat): (r: seq<nat>)
    ensures |r| == n
  {
    seq(n, k requires 0 <= k < n => offset + k)
  }

  lemma SlotsNext(offset: nat, m: nat, n: nat)
    ensures Slots(offset, m) + Slots(offset + m, n) == Slots(offset, m + n)
  {
  }

  /** The slots written are listed in the order of the writes. */
  method CopyVecNestedToFlat<T>(nestedVec: Nested<T>, sizes: Sizes, flatVec: array<T>, flatOffset: nat)
    returns (ghost written: seq<nat>)
    requires HasType(nestedVec, sizes) && flatOffset + TotalNumComponents(sizes) <= flatVec.Length
    modifies flatVec
    ensures flatVec[..] == Overwrite(old(flatVec[..]), flatOffset, Flatten(nestedVec, sizes))
    ensures written == Slots(flatOffset, TotalNumComponents(sizes))
    decreases |sizes|
  {
    hide Times, Overwrite;
    if sizes == [] {
      written := [flatOffset];
      OverwriteOne(flatVec[..], flatOffset, nestedVec.value);
      flatVec[flatOffset] := nestedVec.value;
    } else {
      var subSize := TotalNumComponents(sizes[1..]);
      ghost var before, items := flatVec[..], nestedVec.items;
      var flatIndex := flatOffset;
      written := [];
      assert items[..|items|] == items;
      TimesNext(0, subSize);
      OverwriteNone(before, flatOffset);
      for nestIndex := 0 to |nestedVec.items|
        invariant flatIndex == flatOffset + Times(nestIndex, subSize) <= flatVec.Length
        invariant written == Slots(flatOffset, Times(nestIndex, subSize))
        invariant flatVec[..] == Overwrite(before, flatOffset, FlattenItems(items[..nestIndex], sizes[1..]))
      {
        TimesNext(nestIndex, subSize);
        TimesGrows(nestIndex + 1, |items|, subSize);
        OverwriteNext(before, flatOffset, FlattenItems(items[..nestIndex], sizes[1..]), Flatten(items[nestIndex], sizes[1..]));
        SlotsNext(flatOffset, Times(nestIndex, subSize), subSize);
        ghost var slots := CopyVecNestedToFlat(nestedVec.items[nestIndex], sizes[1..], flatVec, flatIndex);
        written := written + slots;
        assert items[..nestIndex + 1][..nestIndex] == items[..nestIndex];
        flatIndex := flatIndex + subSize;
      }
    }
  }

  method CopyVecFlatToNested<T>(flatVec: seq<T>, flatOffset: nat, sizes: Sizes) returns (nestedVec: Nested<T>)
    requires flatOffset + TotalNumComponents(sizes) <= |flatVec|
    ensures nestedVec == Nest(flatVec[flatOffset..flatOffset + TotalNumComponents(sizes)], sizes)
    decreases |sizes|
  {
    hide Times;
    if sizes == [] {
      return Component(flatVec[flatOffset]);
    }
    var subSize := TotalNumComponents(sizes[1..]);
    TimesNext(0, subSize);
    var flatIndex := flatOffset;
    var items: seq<Nested<T>> := [];
    for nestIndex := 0 to sizes[0]
      invariant flatIndex == flatOffset + Times(nestIndex, subSize) <= |flatVec|
      invariant items == NestItems(flatVec[flatOffset..flatIndex], nestIndex, sizes[1..])
    {
      TimesNext(nestIndex, subSize);
      TimesGrows(nestIndex + 1, sizes[0], subSize);
      var component := CopyVecFlatToNested(flatVec, flatIndex, sizes[1..]);
      ghost var next := flatVec[flatOffset..flatIndex + subSize];
      assert next[..Times(nestIndex, subSize)] == flatVec[flatOffset..flatIndex];
      assert next[Times(nestIndex, subSize)..] == flatVec[flatIndex..flatIndex + subSize];
      items := items + [component];
      flatIndex := flatIndex + subSize;
    }
    nestedVec := Vec(items);
  }

  // ----- the copies undo each other

  lemma {:induction false} FlattenNest<T>(s: seq<T>, sizes: Sizes)
    requires |s| == TotalNumComponents(sizes)
    ensures Flatten(Nest(s, sizes), sizes) == s
    decreases |sizes|, 1, 0
  {
    if sizes == [] {
    } else {
      FlattenNestItems(s, sizes[0], sizes[1..]);
    }
  }

  lemma FlattenAppend<T>(items: seq<Nested<T>>, last: Nested<T>, sizes: Sizes)
    requires HasType(last, sizes) && forall i :: 0 <= i < |items| ==> HasType(items[i], sizes)
    ensures FlattenItems(items + [last], sizes) == FlattenItems(items, sizes) + Flatten(last, sizes)
  {
    hide Times, TotalNumComponents, Flatten;
    assert (items + [last])[..|items|] == items;
  }

  lemma {:induction false} FlattenNestItems<T>(s: seq<T>, n: nat, sizes: Sizes)
    requires |s| == Times(n, TotalNumComponents(sizes))
    ensures FlattenItems(NestItems(s, n, sizes), sizes) == s
    decreases |sizes|, 2, n
  {
    hide Times, TotalNumComponents, Flatten, Nest;
    TimesNext(0, TotalNumComponents(sizes));
    if n == 0 {
    } else {
      TimesNext(n - 1, TotalNumComponents(sizes));
      var m := Times(n - 1, TotalNumComponents(sizes));
      FlattenNestItems(s[..m], n - 1, sizes);
      FlattenNest(s[m..], sizes);
      FlattenAppend(NestItems(s[..m], n - 1, sizes), Nest(s[m..], sizes), sizes);
      assert s[..m] + s[m..] == s;
    }
  }

  lemma {:induction false} NestFlatten<T>(v: Nested<T>, sizes: Sizes)
    requires HasType(v, sizes)
    ensures Nest(Flatten(v, sizes), sizes) == v
    decreases |sizes|, 1, 0
  {
    if sizes == [] {
    } else {
      NestFlattenItems(v.items, sizes[1..]);
    }
  }

  lemma {:induction false} NestFlattenItems<T>(items: seq<Nested<T>>, sizes: Sizes)
    requires forall i :: 0 <= i < |items| ==> HasType(items[i], sizes)
    ensures NestItems(FlattenItems(items, sizes), |items|, sizes) == items
    decreases |sizes|, 2, |items|
  {
    if items == [] {
    } else {
      var n := |items| - 1;
      TimesNext(n, TotalNumComponents(sizes));
      NestFlattenItems(items[..n], sizes);
      NestFlatten(items[n], sizes);
      var s, m := FlattenItems(items, sizes), Times(n, TotalNumComponents(sizes));
      assert s[..m] == FlattenItems(items[..n], sizes) && s[m..] == Flatten(items[n], sizes);
    }
  }

  // ----- and slot k of the flat form is the component the index arithmetic finds

  lemma {:induction false} FlattenAt<T>(v: Nested<T>, sizes: Sizes, k: nat)
    requires HasType(v, sizes) && k < TotalNumComponents(sizes)
    ensures Flatten(v, sizes)[k] == GetFlatVecComponent(v, sizes, k)
    decreases |sizes|
  {
    if sizes == [] {
    } else {
      var subSize := TotalNumComponents(sizes[1..]);
      SubIndex(sizes[0], subSize, k);
      FlattenItemsAt(v.items, sizes[1..], k / subSize, k % subSize);
      FlattenAt(v.items[k / subSize], sizes[1..], k % subSize);
    }
  }

  lemma {:induction false} FlattenItemsAt<T>(items: seq<Nested<T>>, sizes: Sizes, i: nat, r: nat)
    requires forall i :: 0 <= i < |items| ==> HasType(items[i], sizes)
    requires i < |items| && r < TotalNumComponents(sizes)
    ensures Times(i, TotalNumComponents(sizes)) + r < |FlattenItems(items, sizes)|
    ensures FlattenItems(items, sizes)[Times(i, TotalNumComponents(sizes)) + r] == Flatten(items[i], sizes)[r]
    decreases |items|
  {
    var n, w := |items| - 1, TotalNumComponents(sizes);
    TimesNext(n, w);
    if i == n {
    } else {
      FlattenItemsAt(items[..n], sizes, i, r);
    }
  }

  // ----- so an index path leads to the slot counted in row-major order

  predicate IsPath(path: seq<nat>, sizes: Sizes) {
    |path| == |sizes| && forall d :: 0 <= d < |path| ==> path[d] < sizes[d]
  }

  function ComponentAt<T>(v: Nested<T>, sizes: Sizes, path: seq<nat>): T
    requires HasType(v, sizes) && IsPath(path, sizes)
  {
    if sizes == [] then v.value else ComponentAt(v.items[path[0]], sizes[1..], path[1..])
  }

  /** Outer indices count for as many slots as one of their items has. */
  function SlotOf(path: seq<nat>, sizes: Sizes): nat
    requires IsPath(path, sizes)
  {
    if sizes == [] then 0 else path[0] * TotalNumComponents(sizes[1..]) + SlotOf(path[1..], sizes[1..])
  }

  lemma {:induction false} FlattenAtPath<T>(v: Nested<T>, sizes: Sizes, path: seq<nat>)
    requires HasType(v, sizes) && IsPath(path, sizes)
    ensures SlotOf(path, sizes) < TotalNumComponents(sizes)
    ensures Flatten(v, sizes)[SlotOf(path, sizes)] == ComponentAt(v, sizes, path)
    decreases |sizes|
  {
    if sizes == [] {
    } else {
      FlattenAtPath(v.items[path[0]], sizes[1..], path[1..]);
      FlattenItemsAt(v.items, sizes[1..], path[0], SlotOf(path[1..], sizes[1..]));
    }
  }
}
