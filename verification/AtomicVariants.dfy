/** The MSVC and CUDA form of the retry loop, which compares the exchange's result
    with what it assumed, refines the form that branches on the exchange's success
    flag. It has one more place where a thread can be interrupted: between the
    exchange and the comparison. */
module AtomicVariants {
  import opened Atomics
  import opened AtomicInvariant
  import opened AtomicRuns
  import opened IntSums

  datatype Looping<V> =
    | Entering
    | Top(fetched: V)
    | Adding(assumed: V, sum: V)
    | Testing(assumed: V, fetched: V)
    | Left(result: V)

  datatype LoopState<V> = LoopState(memory: seq<V>, loops: seq<Looping<V>>)

  ghost predicate LoopShaped<V(!new)>(p: Program<V>, s: LoopState<V>) {
    |s.memory| == |p.initial| && |s.loops| == |p.calls|
  }

  ghost function LoopStart<V(!new)>(p: Program<V>): (s: LoopState<V>)
    ensures LoopShaped(p, s)
  {
    LoopState(p.initial, seq(|p.calls|, t => Entering))
  }

  ghost function LoopStep<V(!new)>(p: Program<V>, s: LoopState<V>, a: Action<V>): (r: LoopState<V>)
    requires WellFormed(p) && LoopShaped(p, s) && a.thread < |p.calls|
    ensures LoopShaped(p, r)
  {
    var t := a.thread;
    var c := p.calls[t].cell;
    match s.loops[t]
    case Entering => s.(loops := s.loops[t := Top(a.read)])
    case Top(fetched) =>
      // assumed = old
      s.(loops := s.loops[t := Adding(fetched, p.add(fetched, p.calls[t].operand))])
    case Adding(assumed, sum) =>
      // old = the exchange, which returns what the cell held
      s.(memory := if s.memory[c] == assumed then s.memory[c := sum] else s.memory,
         loops := s.loops[t := Testing(assumed, s.memory[c])])
    case Testing(assumed, fetched) =>
      s.(loops := s.loops[t := if assumed != fetched then Top(fetched) else Left(fetched)])
    case Left(_) => s
  }

  ghost function LoopRun<V(!new)>(p: Program<V>, schedule: seq<Action<V>>): (s: LoopState<V>)
    requires WellFormed(p) && IsSchedule(p, schedule)
    ensures LoopShaped(p, s)
  {
    if schedule == [] then LoopStart(p)
    else LoopStep(p, LoopRun(p, schedule[..|schedule| - 1]), schedule[|schedule| - 1])
  }

  /** The place in the flag-testing loop: once the exchange has stored, the call has
      its result, although the comparison is still to come. */
  function Abstract<V(==)>(l: Looping<V>): Thread<V> {
    match l
    case Entering => Invoked
    case Top(fetched) => Loaded(fetched)
    case Adding(assumed, sum) => Computed(assumed, sum)
    case Testing(assumed, fetched) => if assumed != fetched then Loaded(fetched) else Returned(fetched)
    case Left(result) => Returned(result)
  }

  ghost predicate Simulates<V(!new)>(p: Program<V>, l: LoopState<V>, s: State<V>)
    requires LoopShaped(p, l) && Shaped(p, s)
  {
    && s.memory == l.memory
    && forall t :: 0 <= t < |p.calls| ==> s.threads[t] == Abstract(l.loops[t])
  }

  /** The comparison is no step of the other loop; every other step is one. */
  ghost function Matching<V(!new)>(p: Program<V>, schedule: seq<Action<V>>): (m: seq<Action<V>>)
    requires WellFormed(p) && IsSchedule(p, schedule)
    ensures IsSchedule(p, m) && |m| <= |schedule|
  {
    if schedule == [] then []
    else
      var n := |schedule| - 1;
      var m := Matching(p, schedule[..n]);
      if LoopRun(p, schedule[..n]).loops[schedule[n].thread].Testing? then m else m + [schedule[n]]
  }

  lemma StepSimulates<V(!new)>(p: Program<V>, l: LoopState<V>, s: State<V>, a: Action<V>)
    requires WellFormed(p) && LoopShaped(p, l) && Shaped(p, s) && a.thread < |p.calls| && Simulates(p, l, s)
    ensures l.loops[a.thread].Testing? ==> Simulates(p, LoopStep(p, l, a), s)
    ensures !l.loops[a.thread].Testing? ==> Simulates(p, LoopStep(p, l, a), Step(p, s, a))
  {
    assert s.threads[a.thread] == Abstract(l.loops[a.thread]);
  }

  lemma RunAppend<V(!new)>(p: Program<V>, m: seq<Action<V>>, a: Action<V>)
    requires WellFormed(p) && IsSchedule(p, m) && a.thread < |p.calls|
    ensures Run(p, m + [a]) == Step(p, Run(p, m), a)
  {
    assert (m + [a])[..|m|] == m;
  }

  lemma LastStep<V(!new)>(p: Program<V>, schedule: seq<Action<V>>)
    requires WellFormed(p) && IsSchedule(p, schedule) && schedule != []
    ensures var n := |schedule| - 1;
            var l, m, a := LoopRun(p, schedule[..n]), Matching(p, schedule[..n]), schedule[n];
            && LoopRun(p, schedule) == LoopStep(p, l, a)
            && Run(p, Matching(p, schedule)) == if l.loops[a.thread].Testing? then Run(p, m) else Step(p, Run(p, m), a)
  {
    hide Step, LoopStep, Run;
    var n := |schedule| - 1;
    RunAppend(p, Matching(p, schedule[..n]), schedule[n]);
  }

  /** Every run of this loop is matched, state for state, by one of the other. */
  lemma {:induction false} RunSimulates<V(!new)>(p: Program<V>, schedule: seq<Action<V>>)
    requires WellFormed(p) && IsSchedule(p, schedule)
    ensures Simulates(p, LoopRun(p, schedule), Run(p, Matching(p, schedule)))
    decreases |schedule|
  {
    hide Step, LoopStep, Simulates, Abstract, Matching, Run, LoopRun;
    if schedule == [] {
      StartSimulates(p);
    } else {
      var n := |schedule| - 1;
      RunSimulates(p, schedule[..n]);
      LastStep(p, schedule);
      StepSimulates(p, LoopRun(p, schedule[..n]), Run(p, Matching(p, schedule[..n])), schedule[n]);
    }
  }

  lemma StartSimulates<V(!new)>(p: Program<V>)
    requires WellFormed(p)
    ensures Simulates(p, LoopRun(p, []), Run(p, Matching(p, [])))
  {
  }

  /** So this form is linearizable too: one order of distinct calls, including all
      that have left the loop, explains the memory and every result. It is the order
      of the matching run, which LoopRealTimeOrder is about. */
  lemma LoopLinearizable<V(!new)>(p: Program<V>, schedule: seq<Action<V>>) returns (log: seq<nat>)
    requires WellFormed(p) && IsSchedule(p, schedule)
    ensures log == Run(p, Matching(p, schedule)).log
    ensures IsLog(p, log) && DistinctIndices(log, |p.calls|)
    ensures var l := LoopRun(p, schedule);
            && (forall c :: 0 <= c < |p.initial| ==> l.memory[c] == Fold(p.add, p.initial[c], Operands(p, log, c)))
            && (forall t :: 0 <= t < |p.calls| && l.loops[t].Left? ==> t in log)
            && (forall k :: 0 <= k < |log| && l.loops[log[k]].Left? ==> l.loops[log[k]] == Left(ValueBefore(p, log, k)))
  {
    hide Run, LoopRun, Fold, Operands, ValueBefore;
    var m := Matching(p, schedule);
    var l, s := LoopRun(p, schedule), Run(p, m);
    RunSimulates(p, schedule);
    Linearizable(p, m);
    log := s.log;
    forall k | 0 <= k < |log| && l.loops[log[k]].Left? ensures l.loops[log[k]] == Left(ValueBefore(p, log, k)) {
      assert s.threads[log[k]] == Abstract(l.loops[log[k]]);
    }
  }

  // ----- real-time order

  lemma {:induction false} MatchingPrefix<V(!new)>(p: Program<V>, schedule: seq<Action<V>>, m: nat)
    requires WellFormed(p) && IsSchedule(p, schedule) && m <= |schedule|
    ensures Matching(p, schedule[..m]) <= Matching(p, schedule)
    decreases |schedule|
  {
    hide LoopRun;
    if m == |schedule| {
      assert schedule[..m] == schedule;
    } else {
      var n := |schedule| - 1;
      MatchingPrefix(p, schedule[..n], m);
      assert schedule[..n][..m] == schedule[..m];
    }
  }

  /** A call that left the loop before another entered it exchanged before it. */
  lemma LoopRealTimeOrder<V(!new)>(p: Program<V>, schedule: seq<Action<V>>, m: nat, first: nat, second: nat)
    returns (i: nat, j: nat)
    requires WellFormed(p) && IsSchedule(p, schedule) && m <= |schedule| && first < |p.calls| && second < |p.calls|
    requires LoopRun(p, schedule[..m]).loops[first].Left? && LoopRun(p, schedule[..m]).loops[second].Entering?
    requires LoopRun(p, schedule).loops[second].Left?
    ensures var log := Run(p, Matching(p, schedule)).log;
            i < j < |log| && log[i] == first && log[j] == second
  {
    hide Run, LoopRun, Matching;
    RunSimulates(p, schedule);
    RunSimulates(p, schedule[..m]);
    MatchingPrefix(p, schedule, m);
    var early, all := Matching(p, schedule[..m]), Matching(p, schedule);
    assert all[..|early|] == early;
    i, j := RealTimeOrder(p, all, |early|, first, second);
  }

  // ----- attempts and termination

  /** How many steps of the schedule were exchanges. */
  ghost function Exchanges<V(!new)>(p: Program<V>, schedule: seq<Action<V>>): nat
    requires WellFormed(p) && IsSchedule(p, schedule)
  {
    if schedule == [] then 0
    else
      var n := |schedule| - 1;
      Exchanges(p, schedule[..n]) + if LoopRun(p, schedule[..n]).loops[schedule[n].thread].Adding? then 1 else 0
  }

  lemma StepExchanges<V(!new)>(p: Program<V>, l: LoopState<V>, s: State<V>, a: Action<V>)
    requires WellFormed(p) && LoopShaped(p, l) && Shaped(p, s) && a.thread < |p.calls| && Simulates(p, l, s)
    requires !l.loops[a.thread].Testing?
    ensures SumSeq(Step(p, s, a).attempts) == SumSeq(s.attempts) + if l.loops[a.thread].Adding? then 1 else 0
  {
    var t := a.thread;
    assert s.threads[t] == Abstract(l.loops[t]);
    if l.loops[t].Adding? { SumUpdate(s.attempts, t, s.attempts[t] + 1); }
  }

  /** The exchanges of a run are the attempts of the matching run. */
  lemma {:induction false} ExchangesAreAttempts<V(!new)>(p: Program<V>, schedule: seq<Action<V>>)
    requires WellFormed(p) && IsSchedule(p, schedule)
    ensures Exchanges(p, schedule) == SumSeq(Run(p, Matching(p, schedule)).attempts)
    decreases |schedule|
  {
    hide Step, LoopStep, Simulates, LoopRun;
    if schedule == [] {
      SumConstant(Start(p).attempts, 0);
    } else {
      hide Run, Matching;
      var n := |schedule| - 1;
      var l := LoopRun(p, schedule[..n]);
      ExchangesAreAttempts(p, schedule[..n]);
      RunSimulates(p, schedule[..n]);
      LastStep(p, schedule);
      if !l.loops[schedule[n].thread].Testing? {
        StepExchanges(p, l, Run(p, Matching(p, schedule[..n])), schedule[n]);
      }
    }
  }

  /** This form makes no more attempts than the other: at most N(N+1)/2 exchanges in
      any run, and one more for each stale first read. */
  lemma LoopAttemptBound<V(!new)>(p: Program<V>, schedule: seq<Action<V>>)
    requires WellFormed(p) && IsSchedule(p, schedule)
    ensures var n := |p.calls|;
            2 * Exchanges(p, schedule) <= n * (n + 1) + 2 * StaleReads(Run(p, Matching(p, schedule)).stale)
  {
    hide Run, Exchanges, Matching;
    ExchangesAreAttempts(p, schedule);
    AttemptBound(p, Matching(p, schedule));
  }

  ghost predicate LoopLive<V(!new)>(p: Program<V>, schedule: seq<Action<V>>)
    requires WellFormed(p) && IsSchedule(p, schedule)
  {
    forall i :: 0 <= i < |schedule| ==> !LoopRun(p, schedule[..i]).loops[schedule[i].thread].Left?
  }

  /** The steps a thread has taken: its load, and three for each attempt, the last of
      them still to come while the thread is testing. */
  function LoopProgress<V>(l: Looping<V>, attempts: nat): nat {
    match l
    case Entering => 0
    case Top(_) => 1 + 3 * attempts
    case Adding(_, _) => 2 + 3 * attempts
    case Testing(_, _) => 3 * attempts
    case Left(_) => 1 + 3 * attempts
  }

  function LoopProgressSeq<V>(loops: seq<Looping<V>>, attempts: seq<nat>): (r: seq<int>)
    requires |loops| == |attempts|
    ensures |r| == |loops|
  {
    seq(|loops|, t requires 0 <= t < |loops| => LoopProgress(loops[t], attempts[t]))
  }

  lemma LoopStepProgress<V(!new)>(p: Program<V>, l: LoopState<V>, s: State<V>, a: Action<V>)
    requires WellFormed(p) && LoopShaped(p, l) && Shaped(p, s) && a.thread < |p.calls| && Simulates(p, l, s)
    requires !l.loops[a.thread].Left? && (s.threads[a.thread].Invoked? ==> s.attempts[a.thread] == 0)
    ensures var s' := if l.loops[a.thread].Testing? then s else Step(p, s, a);
            SumSeq(LoopProgressSeq(LoopStep(p, l, a).loops, s'.attempts))
              == SumSeq(LoopProgressSeq(l.loops, s.attempts)) + 1
  {
    var t, before := a.thread, LoopProgressSeq(l.loops, s.attempts);
    assert s.threads[t] == Abstract(l.loops[t]);
    var s' := if l.loops[t].Testing? then s else Step(p, s, a);
    assert LoopProgressSeq(LoopStep(p, l, a).loops, s'.attempts) == before[t := before[t] + 1];
    SumUpdate(before, t, before[t] + 1);
  }

  lemma {:induction false} LoopLiveLength<V(!new)>(p: Program<V>, schedule: seq<Action<V>>)
    requires WellFormed(p) && IsSchedule(p, schedule) && LoopLive(p, schedule)
    ensures |schedule| == SumSeq(LoopProgressSeq(LoopRun(p, schedule).loops, Run(p, Matching(p, schedule)).attempts))
    decreases |schedule|
  {
    hide Step, LoopStep, Simulates, Invariant;
    if schedule == [] {
      SumConstant(LoopProgressSeq(LoopStart(p).loops, Start(p).attempts), 0);
    } else {
      var n := |schedule| - 1;
      var m, l := Matching(p, schedule[..n]), LoopRun(p, schedule[..n]);
      assert forall i :: 0 <= i < n ==> schedule[..n][..i] == schedule[..i];
      LoopLiveLength(p, schedule[..n]);
      RunSimulates(p, schedule[..n]);
      RunInvariant(p, m);
      InvokedIsFresh(p, Run(p, m), schedule[n].thread);
      LoopStepProgress(p, l, Run(p, m), schedule[n]);
      LastStep(p, schedule);
    }
  }

  function LoopExact(progress: seq<int>, stale: seq<bool>): (r: seq<int>)
    requires |progress| == |stale|
    ensures |r| == |progress|
  {
    seq(|progress|, t requires 0 <= t < |progress| => progress[t] - 3 * Bonus(stale[t]))
  }

  lemma LoopThreadProgress<V(!new)>(p: Program<V>, l: LoopState<V>, s: State<V>)
    requires WellFormed(p) && LoopShaped(p, l) && Shaped(p, s) && Simulates(p, l, s) && Invariant(p, s)
    ensures DistinctIndices(s.log, |p.calls|)
    ensures var e := LoopExact(LoopProgressSeq(l.loops, s.attempts), s.stale);
            && (forall k :: 0 <= k < |s.log| ==> e[s.log[k]] <= 3 * k + 4)
            && (forall t :: 0 <= t < |p.calls| && t !in s.log ==> e[t] <= 3 * |s.log| + 2)
  {
    hide CellAfter, MemoryInvariant, ReturnInvariant;
    ThreadAttempts(p, s);
    forall k | 0 <= k < |s.log|
      ensures s.threads[s.log[k]] == Abstract(l.loops[s.log[k]]) && s.threads[s.log[k]].Returned?
    {
      assert s.log[k] in s.log;
    }
    assert forall t :: 0 <= t < |p.calls| && t !in s.log ==>
                         s.threads[t] == Abstract(l.loops[t]) && !s.threads[t].Returned?;
  }

  lemma LoopExactSum(progress: seq<int>, stale: seq<bool>)
    requires |progress| == |stale|
    ensures SumSeq(progress) == SumSeq(LoopExact(progress, stale)) + 3 * StaleReads(stale)
  {
    SumPlus(LoopExact(progress, stale), BonusSeq(stale), progress, 3);
  }

  lemma LoopRankSum(progress: seq<int>, stale: seq<bool>, log: seq<nat>)
    requires |progress| == |stale| && DistinctIndices(log, |stale|)
    requires var e := LoopExact(progress, stale);
             && (forall k :: 0 <= k < |log| ==> e[log[k]] <= 3 * k + 4)
             && (forall t :: 0 <= t < |stale| && t !in log ==> e[t] <= 3 * |log| + 2)
    ensures var n := |stale|;
            2 * SumSeq(progress) <= 2 * n + 3 * (n * (n + 1)) + 6 * StaleReads(stale)
  {
    hide RankBound, DistinctIndices, LoopExact, StaleReads;
    var e := LoopExact(progress, stale);
    SumByRank(e, log, 3, 4, 3 * |log| + 2);
    LoopExactSum(progress, stale);
    DistinctFit(log, |stale|);
    LoopArithmetic(|log|, |stale|);
  }

  /** No schedule of unfinished threads is longer than N + 3N(N + 1)/2, three more for
      each stale first read; so all N calls leave the loop however they are interleaved. */
  lemma LoopLiveRunsEnd<V(!new)>(p: Program<V>, schedule: seq<Action<V>>)
    requires WellFormed(p) && IsSchedule(p, schedule) && LoopLive(p, schedule)
    ensures var n := |p.calls|;
            2 * |schedule| <= 2 * n + 3 * (n * (n + 1)) + 6 * StaleReads(Run(p, Matching(p, schedule)).stale)
  {
    hide Run, LoopRun, Matching, LoopLive, Invariant, Simulates, LoopProgressSeq;
    var m := Matching(p, schedule);
    var l, s := LoopRun(p, schedule), Run(p, m);
    LoopLiveLength(p, schedule);
    RunSimulates(p, schedule);
    RunInvariant(p, m);
    LoopThreadProgress(p, l, s);
    LoopRankSum(LoopProgressSeq(l.loops, s.attempts), s.stale, s.log);
  }

  lemma LoopArithmetic(l: int, n: int)
    requires 0 <= l <= n
    ensures RankBound(3, 4, 3 * l + 2, l, n) <= 2 * n + 3 * (n * (n + 1))
  {
    var m := n - l;
    assert n * (n + 1) == (l + m) * (l + m + 1);
    assert 0 <= m * m;
  }
}
