/** What every step of the retry loop keeps, and so every run: memory is the fold of
    the successes, each result is the value just before its own step, and every failed
    attempt is paid for. */
module AtomicInvariant {
  import opened Atomics

  // ----- the invariant

  ghost predicate LogInvariant<V(!new)>(p: Program<V>, s: State<V>)
    requires Shaped(p, s)
  {
    && IsLog(p, s.log)
    && (forall j, k :: 0 <= j < k < |s.log| ==> s.log[j] != s.log[k])
    && (forall t :: 0 <= t < |p.calls| ==> (s.threads[t].Returned? <==> t in s.log))
  }

  /** Memory holds the fold of the log. */
  ghost predicate MemoryInvariant<V(!new)>(p: Program<V>, s: State<V>)
    requires Shaped(p, s) && IsLog(p, s.log)
  {
    forall c :: 0 <= c < |p.initial| ==> s.memory[c] == CellAfter(p, s.log, c)
  }

  /** Each finished call returned what its cell held just before its own addition. */
  ghost predicate ReturnInvariant<V(!new)>(p: Program<V>, s: State<V>)
    requires WellFormed(p) && Shaped(p, s) && IsLog(p, s.log)
  {
    forall k :: 0 <= k < |s.log| ==>
      s.threads[s.log[k]] == Returned(CellAfter(p, s.log[..k], p.calls[s.log[k]].cell))
  }

  function Bonus(stale: bool): nat {
    if stale then 1 else 0
  }

  /** What a call in progress knows: the value it expects is the cell's at its last
      load, unless that load was a stale first read; and every failed attempt is
      paid for by a success it has seen, or by the stale read. */
  ghost predicate PendingAt<V(!new)>(p: Program<V>, s: State<V>, t: nat)
    requires WellFormed(p) && Shaped(p, s) && IsLog(p, s.log) && t < |p.calls|
  {
    var th := s.threads[t];
    && s.seen[t] <= |s.log|
    && (th.Invoked? ==> s.attempts[t] == 0 && !s.stale[t])
    && (!th.Returned? ==> s.attempts[t] <= s.seen[t] + Bonus(s.stale[t]))
    && ((th.Loaded? || th.Computed?) && (0 < s.attempts[t] || !s.stale[t]) ==>
          th.expected == CellAfter(p, s.log[..s.seen[t]], p.calls[t].cell))
    && (th.Computed? ==> th.desired == p.add(th.expected, p.calls[t].operand))
  }

  ghost predicate PendingInvariant<V(!new)>(p: Program<V>, s: State<V>)
    requires WellFormed(p) && Shaped(p, s) && IsLog(p, s.log)
  {
    forall t :: 0 <= t < |p.calls| ==> PendingAt(p, s, t)
  }

  /** The call that succeeded k-th, counting from zero, made at most k + 1 attempts. */
  ghost predicate AttemptInvariant<V(!new)>(p: Program<V>, s: State<V>)
    requires Shaped(p, s) && IsLog(p, s.log)
  {
    forall k :: 0 <= k < |s.log| ==> s.attempts[s.log[k]] <= k + 1 + Bonus(s.stale[s.log[k]])
  }

  ghost predicate Invariant<V(!new)>(p: Program<V>, s: State<V>)
    requires WellFormed(p) && Shaped(p, s)
  {
    && LogInvariant(p, s)
    && MemoryInvariant(p, s)
    && ReturnInvariant(p, s)
    && PendingInvariant(p, s)
    && AttemptInvariant(p, s)
  }

  // ----- every step keeps each part

  lemma LogKept<V(!new)>(p: Program<V>, s: State<V>, a: Action<V>)
    requires WellFormed(p) && Shaped(p, s) && a.thread < |p.calls| && LogInvariant(p, s)
    ensures LogInvariant(p, Step(p, s, a))
  {
    var r := Step(p, s, a);
    if r.log != s.log {
      assert forall u :: u in r.log <==> u in s.log || u == a.thread;
    }
  }

  /** A step leaves the log alone or appends its own thread to it. */
  lemma LogGrows<V(!new)>(p: Program<V>, s: State<V>, a: Action<V>)
    requires WellFormed(p) && Shaped(p, s) && a.thread < |p.calls|
    ensures var r := Step(p, s, a);
            if s.threads[a.thread].Computed? && s.memory[p.calls[a.thread].cell] == s.threads[a.thread].expected
            then r.log == s.log + [a.thread] else r.log == s.log
  {
  }

  lemma CellAfterAppend<V(!new)>(p: Program<V>, log: seq<nat>, t: nat, c: nat)
    requires c < |p.initial| && IsLog(p, log) && t < |p.calls|
    ensures var before := CellAfter(p, log, c);
            CellAfter(p, log + [t], c) == if p.calls[t].cell == c then p.add(before, p.calls[t].operand) else before
  {
    assert (log + [t])[..|log|] == log;
  }

  lemma MemoryKept<V(!new)>(p: Program<V>, s: State<V>, a: Action<V>)
    requires WellFormed(p) && Shaped(p, s) && a.thread < |p.calls| && IsLog(p, s.log)
    requires MemoryInvariant(p, s) && PendingAt(p, s, a.thread)
    ensures IsLog(p, Step(p, s, a).log) && MemoryInvariant(p, Step(p, s, a))
  {
    hide CellAfter;
    LogGrows(p, s, a);
    forall c | 0 <= c < |p.initial| ensures Step(p, s, a).memory[c] == CellAfter(p, Step(p, s, a).log, c) {
      CellAfterAppend(p, s.log, a.thread, c);
    }
  }

  lemma ReturnsKept<V(!new)>(p: Program<V>, s: State<V>, a: Action<V>)
    requires WellFormed(p) && Shaped(p, s) && a.thread < |p.calls| && LogInvariant(p, s)
    requires MemoryInvariant(p, s) && ReturnInvariant(p, s)
    ensures IsLog(p, Step(p, s, a).log) && ReturnInvariant(p, Step(p, s, a))
  {
    hide CellAfter;
    var r := Step(p, s, a);
    LogGrows(p, s, a);
    forall k | 0 <= k < |r.log|
      ensures r.threads[r.log[k]] == Returned(CellAfter(p, r.log[..k], p.calls[r.log[k]].cell))
    {
      if k < |s.log| {
        assert r.log[..k] == s.log[..k] && s.log[k] in s.log;
      } else {
        assert r.log[..k] == s.log;
      }
    }
  }

  lemma PendingKept<V(!new)>(p: Program<V>, s: State<V>, a: Action<V>, u: nat)
    requires WellFormed(p) && Shaped(p, s) && a.thread < |p.calls| && u < |p.calls| && IsLog(p, s.log)
    requires MemoryInvariant(p, s) && PendingAt(p, s, u)
    ensures IsLog(p, Step(p, s, a).log) && PendingAt(p, Step(p, s, a), u)
  {
    hide CellAfter;
    var r := Step(p, s, a);
    LogGrows(p, s, a);
    assert r.log[..s.seen[u]] == s.log[..s.seen[u]];
    assert s.log[..|s.log|] == s.log;
  }

  lemma AttemptsKept<V(!new)>(p: Program<V>, s: State<V>, a: Action<V>)
    requires WellFormed(p) && Shaped(p, s) && a.thread < |p.calls| && LogInvariant(p, s)
    requires AttemptInvariant(p, s) && PendingAt(p, s, a.thread)
    ensures IsLog(p, Step(p, s, a).log) && AttemptInvariant(p, Step(p, s, a))
  {
    hide CellAfter;
    var r := Step(p, s, a);
    LogGrows(p, s, a);
    forall k | 0 <= k < |r.log| ensures r.attempts[r.log[k]] <= k + 1 + Bonus(r.stale[r.log[k]]) {
      if k < |s.log| { assert s.log[k] in s.log; }
    }
  }

  lemma StepKeeps<V(!new)>(p: Program<V>, s: State<V>, a: Action<V>)
    requires WellFormed(p) && Shaped(p, s) && a.thread < |p.calls| && Invariant(p, s)
    ensures Invariant(p, Step(p, s, a))
  {
    hide LogInvariant, MemoryInvariant, ReturnInvariant, AttemptInvariant, PendingAt, Step;
    assert IsLog(p, s.log) by { assert LogInvariant(p, s); LogIsLog(p, s); }
    assert PendingAt(p, s, a.thread);
    LogKept(p, s, a);
    MemoryKept(p, s, a);
    ReturnsKept(p, s, a);
    AttemptsKept(p, s, a);
    forall u | 0 <= u < |p.calls| ensures PendingAt(p, Step(p, s, a), u) { PendingKept(p, s, a, u); }
  }

  lemma LogIsLog<V(!new)>(p: Program<V>, s: State<V>)
    requires Shaped(p, s) && LogInvariant(p, s)
    ensures IsLog(p, s.log)
  {
  }

  lemma StartKeeps<V(!new)>(p: Program<V>)
    requires WellFormed(p)
    ensures Invariant(p, Start(p))
  {
  }

  /** In every interleaving, whatever the plain first reads return. */
  lemma {:induction false} RunInvariant<V(!new)>(p: Program<V>, schedule: seq<Action<V>>)
    requires WellFormed(p) && IsSchedule(p, schedule)
    ensures Invariant(p, Run(p, schedule))
  {
    hide Invariant, Step;
    if schedule == [] {
      StartKeeps(p);
    } else {
      var n := |schedule| - 1;
      RunInvariant(p, schedule[..n]);
      StepKeeps(p, Run(p, schedule[..n]), schedule[n]);
    }
  }
}
