/** The compare-exchange workers of benchmarking/BenchmarkAtomicArray.cxx: worker i
    adds i + in to the cell its index map names, in unsigned arithmetic that wraps.
    Nothing is lost or added twice, however the workers interleave. */
module AtomicWorkers {
  import opened Atomics
  import opened AtomicInvariant
  import opened IntSums
  import opened Arithmetic
  import opened WorkerIndices

  /** Conversion to an unsigned word. */
  function Wrap(x: int, word: nat): int
    requires 0 < word
  {
    x % word
  }

  /** What worker i adds to its cell. */
  function WorkerValue(i: nat, input: int, word: nat): int
    requires 0 < word
  {
    Wrap(Wrap(i, word) + input, word)
  }

  function WrapAdd(word: nat): (int, int) -> int
    requires 0 < word
  {
    (x, y) => Wrap(x + y, word)
  }

  /** All workers of one invocation, with the given index of each. */
  function Workers(inputs: seq<int>, index: seq<nat>, initial: seq<int>, word: nat): Program<int>
    requires 0 < word && |index| == |inputs|
  {
    Program(seq(|inputs|, i requires 0 <= i < |inputs| => Call(index[i], WorkerValue(i, inputs[i], word))),
            initial, WrapAdd(word))
  }

  ghost predicate IsInvocation(inputs: seq<int>, index: seq<nat>, initial: seq<int>, word: nat) {
    && 0 < word && |index| == |inputs|
    && (forall i :: 0 <= i < |index| ==> index[i] < |initial|)
    && (forall j :: 0 <= j < |initial| ==> 0 <= initial[j] < word)
  }

  /** What each worker in the log adds to cell j, with no wrapping. */
  function Contributions(inputs: seq<int>, index: seq<nat>, log: seq<nat>, j: nat): (r: seq<int>)
    requires |index| == |inputs|
    ensures |r| == |inputs|
  {
    seq(|inputs|, i requires 0 <= i < |inputs| => if i in log && index[i] == j then i + inputs[i] else 0)
  }

  /** The same for all workers. */
  function AllContributions(inputs: seq<int>, index: seq<nat>, j: nat): (r: seq<int>)
    requires |index| == |inputs|
    ensures |r| == |inputs|
  {
    seq(|inputs|, i requires 0 <= i < |inputs| => if index[i] == j then i + inputs[i] else 0)
  }

  lemma WrapShift(x: int, k: int, word: nat)
    requires 0 < word
    ensures Wrap(x + word * k, word) == Wrap(x, word)
  {
    assert word * (x / word + k) == word * (x / word) + word * k;
    DivideUnique(x + word * k, word, x / word + k, x % word);
  }

  lemma WrapOfWrap(x: int, y: int, word: nat)
    requires 0 < word
    ensures Wrap(Wrap(x, word) + y, word) == Wrap(x + y, word)
  {
    var q := x / word;
    assert Wrap(x, word) + y == x + y + word * (-q);
    WrapShift(x + y, -q, word);
  }

  /** Wrapping early and often changes nothing. */
  lemma WrapStep(x: int, i: nat, input: int, word: nat)
    requires 0 < word
    ensures Wrap(Wrap(x, word) + WorkerValue(i, input, word), word) == Wrap(x + (i + input), word)
  {
    hide Wrap;
    WrapOfWrap(i, input, word);
    WrapOfWrap(x, WorkerValue(i, input, word), word);
    WrapOfWrap(i + input, x, word);
    assert x + WorkerValue(i, input, word) == Wrap(i + input, word) + x;
  }

  lemma WrapSmall(x: int, word: nat)
    requires 0 <= x < word
    ensures Wrap(x, word) == x
  {
  }

  lemma ContributionStep(inputs: seq<int>, index: seq<nat>, log: seq<nat>, j: nat)
    requires |index| == |inputs| && DistinctIndices(log, |inputs|) && log != []
    ensures var n := |log| - 1;
            SumSeq(Contributions(inputs, index, log, j)) ==
              SumSeq(Contributions(inputs, index, log[..n], j)) + if index[log[n]] == j then log[n] + inputs[log[n]] else 0
  {
    var n := |log| - 1;
    var t, sums, before := log[n], Contributions(inputs, index, log, j), Contributions(inputs, index, log[..n], j);
    assert log == log[..n] + [t];
    if index[t] == j {
      assert sums == before[t := t + inputs[t]];
      SumUpdate(before, t, t + inputs[t]);
    } else {
      assert sums == before;
    }
  }

  lemma WorkersAreCalls(inputs: seq<int>, index: seq<nat>, initial: seq<int>, word: nat, log: seq<nat>)
    requires IsInvocation(inputs, index, initial, word) && DistinctIndices(log, |inputs|)
    ensures IsLog(Workers(inputs, index, initial, word), log)
  {
  }

  /** A cell holds, modulo the word size, its first value plus what the workers in the
      log add to it. */
  lemma {:induction false} CellIsSum(inputs: seq<int>, index: seq<nat>, initial: seq<int>, word: nat, log: seq<nat>, j: nat)
    requires IsInvocation(inputs, index, initial, word) && DistinctIndices(log, |inputs|) && j < |initial|
    ensures IsLog(Workers(inputs, index, initial, word), log)
    ensures CellAfter(Workers(inputs, index, initial, word), log, j)
         == Wrap(initial[j] + SumSeq(Contributions(inputs, index, log, j)), word)
  {
    hide Wrap, WorkerValue, SumSeq, Contributions;
    WorkersAreCalls(inputs, index, initial, word, log);
    if log == [] {
      NoContributions(inputs, index, j);
      WrapSmall(initial[j], word);
    } else {
      var n := |log| - 1;
      CellIsSum(inputs, index, initial, word, log[..n], j);
      ContributionStep(inputs, index, log, j);
      WrapStep(initial[j] + SumSeq(Contributions(inputs, index, log[..n], j)), log[n], inputs[log[n]], word);
    }
  }

  lemma NoContributions(inputs: seq<int>, index: seq<nat>, j: nat)
    requires |index| == |inputs|
    ensures SumSeq(Contributions(inputs, index, [], j)) == 0
  {
    SumConstant(Contributions(inputs, index, [], j), 0);
  }

  /** What each worker that has finished adds to cell j. */
  function FinishedContributions(inputs: seq<int>, index: seq<nat>, threads: seq<Thread<int>>, j: nat): (r: seq<int>)
    requires |index| == |inputs| == |threads|
    ensures |r| == |inputs|
  {
    seq(|inputs|, i requires 0 <= i < |inputs| => if threads[i].Returned? && index[i] == j then i + inputs[i] else 0)
  }

  /** At any point of any run, a cell holds its first value plus the sum of i + in over
      exactly the finished workers whose index is that cell, modulo the word size. */
  lemma CellsDuringRun(inputs: seq<int>, index: seq<nat>, initial: seq<int>, word: nat,
                       schedule: seq<Action<int>>, j: nat)
    requires IsInvocation(inputs, index, initial, word) && j < |initial|
    requires WellFormed(Workers(inputs, index, initial, word)) && IsSchedule(Workers(inputs, index, initial, word), schedule)
    ensures var s := Run(Workers(inputs, index, initial, word), schedule);
            s.memory[j] == Wrap(initial[j] + SumSeq(FinishedContributions(inputs, index, s.threads, j)), word)
  {
    hide Run, CellAfter;
    var p := Workers(inputs, index, initial, word);
    var s := Run(p, schedule);
    RunInvariant(p, schedule);
    CellIsSum(inputs, index, initial, word, s.log, j);
    assert Contributions(inputs, index, s.log, j) == FinishedContributions(inputs, index, s.threads, j);
  }

  /** When every worker has finished, each cell holds its first value plus the sum of
      i + in over exactly the workers whose index is that cell, modulo the word size. */
  lemma WorkersConserve(inputs: seq<int>, index: seq<nat>, initial: seq<int>, word: nat,
                        schedule: seq<Action<int>>, j: nat)
    requires IsInvocation(inputs, index, initial, word) && j < |initial|
    requires WellFormed(Workers(inputs, index, initial, word)) && IsSchedule(Workers(inputs, index, initial, word), schedule)
    requires var s := Run(Workers(inputs, index, initial, word), schedule);
             forall t :: 0 <= t < |inputs| ==> s.threads[t].Returned?
    ensures Run(Workers(inputs, index, initial, word), schedule).memory[j]
         == Wrap(initial[j] + SumSeq(AllContributions(inputs, index, j)), word)
  {
    hide Run;
    var s := Run(Workers(inputs, index, initial, word), schedule);
    CellsDuringRun(inputs, index, initial, word, schedule, j);
    assert FinishedContributions(inputs, index, s.threads, j) == AllContributions(inputs, index, j);
  }

  // ----- the workers with either map

  function StrideIndices(n: nat, stride: nat, numVals: nat): (r: seq<nat>)
    requires 0 < stride && 0 < numVals
    ensures |r| == n
  {
    seq(n, i requires 0 <= i < n => StrideIndex(i, stride, numVals))
  }

  function SeqIndices(n: nat, numVals: nat): (r: seq<nat>)
    requires 0 < numVals
    ensures |r| == n
  {
    seq(n, i requires 0 <= i < n => SeqIndex(i, numVals))
  }

  /** Both maps send every worker to a cell of the array, so WorkersConserve speaks of
      both kinds of worker, for any number of them and any nonempty array. */
  lemma MapsStayInArray(inputs: seq<int>, initial: seq<int>, word: nat, stride: nat)
    requires 0 < word && 0 < stride && 0 < |initial| && forall j :: 0 <= j < |initial| ==> 0 <= initial[j] < word
    ensures IsInvocation(inputs, SeqIndices(|inputs|, |initial|), initial, word)
    ensures IsInvocation(inputs, StrideIndices(|inputs|, stride, |initial|), initial, word)
  {
    hide Transposed;
  }

  /** A square array and as many workers: the strided workers hit each cell once, so the
      cell in column q of row r ends as its first value plus what the worker with the
      transposed number adds alone. */
  lemma StrideHitsOnce(inputs: seq<int>, initial: seq<int>, word: nat, stride: nat, schedule: seq<Action<int>>,
                       q: nat, r: nat)
    requires q < stride && r < stride && |inputs| == |initial| == stride * stride
    requires IsInvocation(inputs, StrideIndices(|inputs|, stride, |initial|), initial, word)
    requires var p := Workers(inputs, StrideIndices(|inputs|, stride, |initial|), initial, word);
             && WellFormed(p) && IsSchedule(p, schedule)
             && forall t :: 0 <= t < |inputs| ==> Run(p, schedule).threads[t].Returned?
    ensures stride * q + r < |inputs| && stride * r + q < |initial|
    ensures var i, j := stride * q + r, stride * r + q;
            Run(Workers(inputs, StrideIndices(|inputs|, stride, |initial|), initial, word), schedule).memory[j]
              == Wrap(initial[j] + (i + inputs[i]), word)
  {
    hide Run, Transposed, StrideIndex, Wrap;
    var index, i, j := StrideIndices(|inputs|, stride, |initial|), stride * q + r, stride * r + q;
    QuotientBelow(q, r, stride);
    TransposedMeans(q, r, stride);
    StrideSeparates(i, stride, |initial|);
    WorkersConserve(inputs, index, initial, word, schedule, j);
    OneContribution(inputs, index, j, i);
  }

  lemma OneContribution(inputs: seq<int>, index: seq<nat>, j: nat, i: nat)
    requires |index| == |inputs| && i < |inputs|
    requires forall t :: 0 <= t < |index| ==> (index[t] == j <==> t == i)
    ensures SumSeq(AllContributions(inputs, index, j)) == i + inputs[i]
  {
    var none := seq(|inputs|, t => 0);
    assert AllContributions(inputs, index, j) == none[i := i + inputs[i]];
    SumConstant(none, 0);
    SumUpdate(none, i, i + inputs[i]);
  }
}
