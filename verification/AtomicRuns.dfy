/** What the invariant of the retry loop means for whole runs: linearizability,
    real-time order, a bound on the attempts, and termination. */
module AtomicRuns {
  import opened Atomics
  import opened AtomicInvariant
  import opened IntSums

  // ----- linearizability

  function Fold<V>(add: (V, V) -> V, v: V, operands: seq<V>): V {
    if operands == [] then v
    else add(Fold(add, v, operands[..|operands| - 1]), operands[|operands| - 1])
  }

  /** The operands of the calls on cell c, in the order of the log. */
  ghost function Operands<V(!new)>(p: Program<V>, log: seq<nat>, c: nat): seq<V>
    requires IsLog(p, log)
  {
    if log == [] then []
    else
      var t, before := log[|log| - 1], Operands(p, log[..|log| - 1], c);
      if p.calls[t].cell == c then before + [p.calls[t].operand] else before
  }

  lemma {:induction false} CellAfterIsFold<V(!new)>(p: Program<V>, log: seq<nat>, c: nat)
    requires c < |p.initial| && IsLog(p, log)
    ensures CellAfter(p, log, c) == Fold(p.add, p.initial[c], Operands(p, log, c))
  {
    if log == [] {
    } else {
      var n := |log| - 1;
      CellAfterIsFold(p, log[..n], c);
      var before, t := Operands(p, log[..n], c), log[n];
      if p.calls[t].cell == c { assert (before + [p.calls[t].operand])[..|before|] == before; }
    }
  }

  /** The value the calls before the k-th success leave in that call's cell. */
  ghost function ValueBefore<V(!new)>(p: Program<V>, log: seq<nat>, k: nat): V
    requires WellFormed(p) && IsLog(p, log) && k < |log|
  {
    var c := p.calls[log[k]].cell;
    Fold(p.add, p.initial[c], Operands(p, log[..k], c))
  }

  /** Memory and results are those of the finished calls run one after another, in
      the order of the log, which lists each finished call once. */
  ghost predicate Linearized<V(!new)>(p: Program<V>, s: State<V>)
    requires WellFormed(p) && Shaped(p, s)
  {
    && IsLog(p, s.log) && DistinctIndices(s.log, |p.calls|)
    && (forall t :: 0 <= t < |p.calls| ==> (s.threads[t].Returned? <==> t in s.log))
    && (forall c :: 0 <= c < |p.initial| ==> s.memory[c] == Fold(p.add, p.initial[c], Operands(p, s.log, c)))
    && (forall k :: 0 <= k < |s.log| ==> s.threads[s.log[k]] == Returned(ValueBefore(p, s.log, k)))
  }

  lemma Linearizable<V(!new)>(p: Program<V>, schedule: seq<Action<V>>)
    requires WellFormed(p) && IsSchedule(p, schedule)
    ensures Linearized(p, Run(p, schedule))
  {
    hide Run, CellAfter, Fold, Operands;
    var s := Run(p, schedule);
    RunInvariant(p, schedule);
    forall c | 0 <= c < |p.initial| ensures s.memory[c] == Fold(p.add, p.initial[c], Operands(p, s.log, c)) {
      CellAfterIsFold(p, s.log, c);
    }
    forall k | 0 <= k < |s.log| ensures s.threads[s.log[k]] == Returned(ValueBefore(p, s.log, k)) {
      CellAfterIsFold(p, s.log[..k], p.calls[s.log[k]].cell);
    }
  }

  // ----- the order agrees with real time

  lemma {:induction false} LogPrefix<V(!new)>(p: Program<V>, schedule: seq<Action<V>>, m: nat)
    requires WellFormed(p) && IsSchedule(p, schedule) && m <= |schedule|
    ensures Run(p, schedule[..m]).log <= Run(p, schedule).log
    decreases |schedule|
  {
    hide Step;
    if m == |schedule| {
      assert schedule[..m] == schedule;
    } else {
      var n := |schedule| - 1;
      LogPrefix(p, schedule[..n], m);
      assert schedule[..n][..m] == schedule[..m];
      LogGrows(p, Run(p, schedule[..n]), schedule[n]);
    }
  }

  /** A call that returned before another was invoked comes before it in the log. */
  lemma RealTimeOrder<V(!new)>(p: Program<V>, schedule: seq<Action<V>>, m: nat, first: nat, second: nat)
    returns (i: nat, j: nat)
    requires WellFormed(p) && IsSchedule(p, schedule) && m <= |schedule| && first < |p.calls| && second < |p.calls|
    requires Run(p, schedule[..m]).threads[first].Returned? && Run(p, schedule[..m]).threads[second].Invoked?
    requires Run(p, schedule).threads[second].Returned?
    ensures i < j < |Run(p, schedule).log|
    ensures Run(p, schedule).log[i] == first && Run(p, schedule).log[j] == second
  {
    hide Run, CellAfter;
    RunInvariant(p, schedule);
    RunInvariant(p, schedule[..m]);
    LogPrefix(p, schedule, m);
    var early, late := Run(p, schedule[..m]).log, Run(p, schedule).log;
    assert first in early && second !in early && second in late;
    i :| 0 <= i < |early| && early[i] == first;
    j :| 0 <= j < |late| && late[j] == second;
    assert forall q :: 0 <= q < |early| ==> late[q] == early[q] != second;
  }

  // ----- attempts

  function BonusSeq(stale: seq<bool>): (r: seq<int>)
    ensures |r| == |stale|
  {
    seq(|stale|, t requires 0 <= t < |stale| => Bonus(stale[t]))
  }

  /** How many threads' first reads were stale. */
  function StaleReads(stale: seq<bool>): int {
    SumSeq(BonusSeq(stale))
  }

  function Exact(attempts: seq<nat>, stale: seq<bool>): (r: seq<int>)
    requires |attempts| == |stale|
    ensures |r| == |attempts|
  {
    seq(|attempts|, t requires 0 <= t < |attempts| => attempts[t] - Bonus(stale[t]))
  }

  lemma ThreadAttempts<V(!new)>(p: Program<V>, s: State<V>)
    requires WellFormed(p) && Shaped(p, s) && Invariant(p, s)
    ensures DistinctIndices(s.log, |p.calls|)
    ensures forall k :: 0 <= k < |s.log| ==> s.attempts[s.log[k]] <= k + 1 + Bonus(s.stale[s.log[k]])
    ensures forall t :: 0 <= t < |p.calls| && t !in s.log ==> s.attempts[t] <= |s.log| + Bonus(s.stale[t])
  {
    hide CellAfter;
    forall t | 0 <= t < |p.calls| && t !in s.log ensures s.attempts[t] <= |s.log| + Bonus(s.stale[t]) {
      assert PendingAt(p, s, t);
    }
  }

  /** How many of the schedule's steps were exchanges by thread t. */
  ghost function ExchangesBy<V(!new)>(p: Program<V>, schedule: seq<Action<V>>, t: nat): nat
    requires WellFormed(p) && IsSchedule(p, schedule) && t < |p.calls|
  {
    if schedule == [] then 0
    else
      var n := |schedule| - 1;
      ExchangesBy(p, schedule[..n], t)
        + if schedule[n].thread == t && Run(p, schedule[..n]).threads[t].Computed? then 1 else 0
  }

  lemma StepAttempts<V(!new)>(p: Program<V>, s: State<V>, a: Action<V>, t: nat)
    requires WellFormed(p) && Shaped(p, s) && a.thread < |p.calls| && t < |p.calls|
    ensures Step(p, s, a).attempts[t] == s.attempts[t] + if a.thread == t && s.threads[t].Computed? then 1 else 0
  {
  }

  /** The record of attempts counts exactly the exchanges. */
  lemma {:induction false} AttemptsAreExchanges<V(!new)>(p: Program<V>, schedule: seq<Action<V>>, t: nat)
    requires WellFormed(p) && IsSchedule(p, schedule) && t < |p.calls|
    ensures Run(p, schedule).attempts[t] == ExchangesBy(p, schedule, t)
    decreases |schedule|
  {
    hide Step;
    if schedule == [] {
    } else {
      var n := |schedule| - 1;
      AttemptsAreExchanges(p, schedule[..n], t);
      StepAttempts(p, Run(p, schedule[..n]), schedule[n], t);
    }
  }

  /** In any run, finished or not: with N threads there are at most N(N+1)/2 attempts
      at the exchange, and one more for each first read that was stale. */
  lemma AttemptBound<V(!new)>(p: Program<V>, schedule: seq<Action<V>>)
    requires WellFormed(p) && IsSchedule(p, schedule)
    ensures var s, n := Run(p, schedule), |p.calls|;
            2 * SumSeq(s.attempts) <= n * (n + 1) + 2 * StaleReads(s.stale)
  {
    hide Run, Invariant;
    var s, n := Run(p, schedule), |p.calls|;
    RunInvariant(p, schedule);
    ThreadAttempts(p, s);
    var e := Exact(s.attempts, s.stale);
    SumByRank(e, s.log, 1, 1, |s.log|);
    SumPlus(e, BonusSeq(s.stale), s.attempts, 1);
    DistinctFit(s.log, n);
    AttemptArithmetic(|s.log|, n);
  }

  lemma AttemptArithmetic(l: int, n: int)
    requires 0 <= l <= n
    ensures RankBound(1, 1, l, l, n) <= n * (n + 1)
  {
    var m := n - l;
    assert n * (n + 1) == (l + m) * (l + m + 1);
  }

  /** Distinct indices below n number at most n. */
  lemma {:induction false} DistinctFit(log: seq<nat>, n: nat)
    requires DistinctIndices(log, n)
    ensures |log| <= n
  {
    var ones := seq(n, t => 1);
    var marked := Marked(log, n);
    SumConstant(ones, 1);
    MarkedSum(log, n);
    SumAtMost(marked, 1);
  }

  function Marked(log: seq<nat>, n: nat): (r: seq<int>)
    ensures |r| == n
  {
    seq(n, t => if t in log then 1 else 0)
  }

  lemma {:induction false} MarkedSum(log: seq<nat>, n: nat)
    requires DistinctIndices(log, n)
    ensures SumSeq(Marked(log, n)) == |log|
  {
    if log == [] {
      SumConstant(Marked(log, n), 0);
    } else {
      var k := |log| - 1;
      MarkedSum(log[..k], n);
      assert log == log[..k] + [log[k]];
      assert Marked(log, n) == Marked(log[..k], n)[log[k] := 1];
      SumUpdate(Marked(log[..k], n), log[k], 1);
    }
  }

  // ----- termination

  /** Every step is taken by a thread whose call has not returned. */
  ghost predicate Live<V(!new)>(p: Program<V>, schedule: seq<Action<V>>)
    requires WellFormed(p) && IsSchedule(p, schedule)
  {
    forall i :: 0 <= i < |schedule| ==> !Run(p, schedule[..i]).threads[schedule[i].thread].Returned?
  }

  /** The steps a thread has taken: its load, and two for each attempt. */
  function Progress<V>(th: Thread<V>, attempts: nat): nat {
    match th
    case Invoked => 0
    case Loaded(_) => 1 + 2 * attempts
    case Computed(_, _) => 2 + 2 * attempts
    case Returned(_) => 1 + 2 * attempts
  }

  ghost function ProgressSeq<V(!new)>(p: Program<V>, s: State<V>): (r: seq<int>)
    requires Shaped(p, s)
    ensures |r| == |p.calls|
  {
    seq(|p.calls|, t requires 0 <= t < |p.calls| => Progress(s.threads[t], s.attempts[t]))
  }

  lemma StepProgress<V(!new)>(p: Program<V>, s: State<V>, a: Action<V>)
    requires WellFormed(p) && Shaped(p, s) && a.thread < |p.calls| && !s.threads[a.thread].Returned?
    requires s.threads[a.thread].Invoked? ==> s.attempts[a.thread] == 0
    ensures SumSeq(ProgressSeq(p, Step(p, s, a))) == SumSeq(ProgressSeq(p, s)) + 1
  {
    var t, before := a.thread, ProgressSeq(p, s);
    assert ProgressSeq(p, Step(p, s, a)) == before[t := before[t] + 1];
    SumUpdate(before, t, before[t] + 1);
  }

  lemma NoProgress<V(!new)>(p: Program<V>)
    requires WellFormed(p)
    ensures SumSeq(ProgressSeq(p, Run(p, []))) == 0
  {
    SumConstant(ProgressSeq(p, Start(p)), 0);
  }

  lemma RunNext<V(!new)>(p: Program<V>, schedule: seq<Action<V>>)
    requires WellFormed(p) && IsSchedule(p, schedule) && schedule != []
    ensures var n := |schedule| - 1;
            Run(p, schedule) == Step(p, Run(p, schedule[..n]), schedule[n])
  {
    hide Step;
  }

  lemma LivePrefix<V(!new)>(p: Program<V>, schedule: seq<Action<V>>)
    requires WellFormed(p) && IsSchedule(p, schedule) && Live(p, schedule) && schedule != []
    ensures var n := |schedule| - 1;
            && Live(p, schedule[..n])
            && !Run(p, schedule[..n]).threads[schedule[n].thread].Returned?
  {
    hide Run;
    var n := |schedule| - 1;
    assert forall i :: 0 <= i < n ==> schedule[..n][..i] == schedule[..i];
  }

  /** The length of a live schedule is the total progress. */
  lemma {:induction false} LiveLength<V(!new)>(p: Program<V>, schedule: seq<Action<V>>)
    requires WellFormed(p) && IsSchedule(p, schedule) && Live(p, schedule)
    ensures |schedule| == SumSeq(ProgressSeq(p, Run(p, schedule)))
    decreases |schedule|
  {
    hide Step, Invariant, Run, ProgressSeq, Live;
    if schedule == [] {
      NoProgress(p);
    } else {
      var n := |schedule| - 1;
      var s := Run(p, schedule[..n]);
      LivePrefix(p, schedule);
      RunNext(p, schedule);
      LiveLength(p, schedule[..n]);
      RunInvariant(p, schedule[..n]);
      InvokedIsFresh(p, s, schedule[n].thread);
      StepProgress(p, s, schedule[n]);
    }
  }

  lemma InvokedIsFresh<V(!new)>(p: Program<V>, s: State<V>, t: nat)
    requires WellFormed(p) && Shaped(p, s) && Invariant(p, s) && t < |p.calls|
    ensures s.threads[t].Invoked? ==> s.attempts[t] == 0
  {
    assert PendingAt(p, s, t);
  }

  function ExactProgress(progress: seq<int>, stale: seq<bool>): (r: seq<int>)
    requires |progress| == |stale|
    ensures |r| == |progress|
  {
    seq(|progress|, t requires 0 <= t < |progress| => progress[t] - 2 * Bonus(stale[t]))
  }

  lemma ThreadProgress<V(!new)>(p: Program<V>, s: State<V>)
    requires WellFormed(p) && Shaped(p, s) && Invariant(p, s)
    ensures DistinctIndices(s.log, |p.calls|)
    ensures var e := ExactProgress(ProgressSeq(p, s), s.stale);
            && (forall k :: 0 <= k < |s.log| ==> e[s.log[k]] <= 2 * k + 3)
            && (forall t :: 0 <= t < |p.calls| && t !in s.log ==> e[t] <= 2 * |s.log| + 2)
  {
    hide CellAfter, MemoryInvariant, ReturnInvariant;
    ThreadAttempts(p, s);
  }

  /** No schedule of unfinished threads is longer than N(N + 2), two more for each
      stale first read; so all N calls return however they are interleaved. */
  lemma LiveRunsEnd<V(!new)>(p: Program<V>, schedule: seq<Action<V>>)
    requires WellFormed(p) && IsSchedule(p, schedule) && Live(p, schedule)
    ensures var n := |p.calls|;
            |schedule| <= n * (n + 2) + 2 * StaleReads(Run(p, schedule).stale)
  {
    hide Run, Invariant, Live;
    var s, n := Run(p, schedule), |p.calls|;
    LiveLength(p, schedule);
    RunInvariant(p, schedule);
    ThreadProgress(p, s);
    var progress := ProgressSeq(p, s);
    var e := ExactProgress(progress, s.stale);
    SumByRank(e, s.log, 2, 3, 2 * |s.log| + 2);
    SumPlus(e, BonusSeq(s.stale), progress, 2);
    DistinctFit(s.log, n);
    ProgressArithmetic(|s.log|, n);
  }

  lemma ProgressArithmetic(l: int, n: int)
    requires 0 <= l <= n
    ensures RankBound(2, 3, 2 * l + 2, l, n) <= 2 * (n * (n + 2))
  {
    var m := n - l;
    assert n * (n + 2) == (l + m) * (l + m + 2);
    assert 0 <= m * m;
  }

  /** When every first read returns what the cell holds, none of them is stale. */
  ghost predicate ExactReads<V(!new)>(p: Program<V>, schedule: seq<Action<V>>)
    requires WellFormed(p) && IsSchedule(p, schedule)
  {
    forall i :: 0 <= i < |schedule| ==>
      var s, t := Run(p, schedule[..i]), schedule[i].thread;
      s.threads[t].Invoked? ==> schedule[i].read == s.memory[p.calls[t].cell]
  }

  lemma ExactStepNeverStale<V(!new)>(p: Program<V>, s: State<V>, a: Action<V>)
    requires WellFormed(p) && Shaped(p, s) && a.thread < |p.calls|
    requires s.threads[a.thread].Invoked? ==> a.read == s.memory[p.calls[a.thread].cell]
    requires forall t :: 0 <= t < |p.calls| ==> !s.stale[t]
    ensures forall t :: 0 <= t < |p.calls| ==> !Step(p, s, a).stale[t]
  {
  }

  lemma {:induction false} ExactReadsNeverStale<V(!new)>(p: Program<V>, schedule: seq<Action<V>>)
    requires WellFormed(p) && IsSchedule(p, schedule) && ExactReads(p, schedule)
    ensures forall t :: 0 <= t < |p.calls| ==> !Run(p, schedule).stale[t]
    decreases |schedule|
  {
    hide Step;
    if schedule == [] {
    } else {
      var n := |schedule| - 1;
      assert forall i :: 0 <= i < n ==> schedule[..n][..i] == schedule[..i];
      ExactReadsNeverStale(p, schedule[..n]);
      ExactStepNeverStale(p, Run(p, schedule[..n]), schedule[n]);
    }
  }

  /** With exact first reads: the k-th call to succeed, counting from zero, failed at
      most k times; all N calls together make at most N(N+1)/2 attempts; and no live
      schedule is longer than N(N+2). */
  lemma ExactReadBounds<V(!new)>(p: Program<V>, schedule: seq<Action<V>>)
    requires WellFormed(p) && IsSchedule(p, schedule) && ExactReads(p, schedule)
    ensures var s, n := Run(p, schedule), |p.calls|;
            && IsLog(p, s.log)
            && (forall k :: 0 <= k < |s.log| ==> s.attempts[s.log[k]] - 1 <= k)
            && 2 * SumSeq(s.attempts) <= n * (n + 1)
            && (Live(p, schedule) ==> |schedule| <= n * (n + 2))
  {
    hide Run, Invariant, Live;
    var s := Run(p, schedule);
    RunInvariant(p, schedule);
    ThreadAttempts(p, s);
    AttemptBound(p, schedule);
    ExactReadsNeverStale(p, schedule);
    SumConstant(BonusSeq(s.stale), 0);
    if Live(p, schedule) { LiveRunsEnd(p, schedule); }
  }
}
