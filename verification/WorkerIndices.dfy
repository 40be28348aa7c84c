/** The index maps of the workers of benchmarking/BenchmarkAtomicArray.cxx: which cell
    each of them changes. */
module WorkerIndices {
  import opened Arithmetic

  /** CASSeqWorker's index map. */
  function SeqIndex(i: nat, numVals: nat): nat
    requires 0 < numVals
  {
    i % numVals
  }

  /** CASStrideWorker's index map, before it is reduced to the array's size. */
  function Transposed(i: nat, stride: nat): (r: nat)
    requires 0 < stride
  {
    i / stride + stride * (i % stride)
  }

  function StrideIndex(i: nat, stride: nat, numVals: nat): nat
    requires 0 < stride && 0 < numVals
  {
    Transposed(i, stride) % numVals
  }

  // ----- the strided map

  /** Before it is reduced, the strided map is its own inverse below stride squared:
      it transposes a square of that side. */
  lemma TransposedTwice(i: nat, stride: nat)
    requires 0 < stride && i < stride * stride
    ensures Transposed(i, stride) < stride * stride
    ensures Transposed(Transposed(i, stride), stride) == i
  {
    var q, r := i / stride, i % stride;
    QuotientBelow(q, r, stride);
    QuotientBelow(r, q, stride);
    DivideUnique(q + stride * r, stride, r, q);
  }

  /** It sends column r of row q of the square to column q of row r, so that neighbours in
      a row land a stride apart. */
  lemma TransposedMeans(q: nat, r: nat, stride: nat)
    requires r < stride
    ensures Transposed(stride * q + r, stride) == stride * r + q
    ensures r + 1 < stride ==> Transposed(stride * q + r + 1, stride) == Transposed(stride * q + r, stride) + stride
  {
    DivideUnique(stride * q + r, stride, q, r);
    if r + 1 < stride {
      DivideUnique(stride * q + r + 1, stride, q, r + 1);
      assert stride * (r + 1) == stride * r + stride;
    }
  }

  /** The reduced index names a cell, and is congruent to the index before the reduction. */
  lemma StrideIndexMeans(q: nat, r: nat, stride: nat, numVals: nat) returns (k: nat)
    requires r < stride && 0 < numVals
    ensures StrideIndex(stride * q + r, stride, numVals) < numVals
    ensures StrideIndex(stride * q + r, stride, numVals) + numVals * k == stride * r + q
  {
    hide Transposed;
    TransposedMeans(q, r, stride);
    k := (stride * r + q) / numVals;
  }

  /** The sequential workers take the cells in turn and start over. */
  lemma SeqIndexMeans(i: nat, numVals: nat)
    requires 0 < numVals
    ensures i < numVals ==> SeqIndex(i, numVals) == i
    ensures SeqIndex(i + numVals, numVals) == SeqIndex(i, numVals) < numVals
  {
    DivideUnique(i + numVals, numVals, i / numVals + 1, i % numVals);
  }

  lemma QuotientBelow(q: nat, r: nat, stride: nat)
    requires r < stride
    ensures stride * q + r < stride * stride <==> q < stride
  {
    if q < stride {
      assert stride * stride == stride * q + stride * (stride - q);
      MultipleGrows(stride, stride - q);
    } else {
      assert stride * q == stride * stride + stride * (q - stride);
      if stride < q { MultipleGrows(stride, q - stride); }
    }
  }

  lemma SquareIndex(t: nat, stride: nat, numVals: nat)
    requires 0 < stride && t < stride * stride == numVals
    ensures StrideIndex(t, stride, numVals) == Transposed(t, stride)
  {
    hide Transposed;
    TransposedTwice(t, stride);
    DivideUnique(Transposed(t, stride), numVals, 0, Transposed(t, stride));
  }

  lemma StrideSeparates(i: nat, stride: nat, numVals: nat)
    requires 0 < stride && i < stride * stride == numVals
    ensures Transposed(i, stride) < numVals
    ensures forall t :: 0 <= t < numVals ==> (StrideIndex(t, stride, numVals) == Transposed(i, stride) <==> t == i)
  {
    hide Transposed, StrideIndex;
    TransposedTwice(i, stride);
    forall t | 0 <= t < numVals ensures StrideIndex(t, stride, numVals) == Transposed(i, stride) <==> t == i {
      TransposedTwice(t, stride);
      SquareIndex(t, stride, numVals);
    }
  }
}
