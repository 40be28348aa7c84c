/** The compare-and-swap retry loop that emulates fetch-add (viskores/Atomic.h),
    as a machine over shared memory. Every thread makes one call; a schedule says
    which thread takes the next step, so a statement about all schedules is a
    statement about all interleavings. Addition is any function of two values. */
module Atomics {

  datatype Call<V> = Call(cell: nat, operand: V)

  /** What all threads run: their calls, the initial memory, and the addition. */
  datatype Program<!V> = Program(calls: seq<Call<V>>, initial: seq<V>, add: (V, V) -> V)

  /** Where a thread is in its do-while loop. */
  datatype Thread<V> =
    | Invoked
    | Loaded(expected: V)
    | Computed(expected: V, desired: V)
    | Returned(result: V)

  /** Memory and threads, with a record of the run that no step looks at: the
      threads in the order their exchanges succeeded, the number of successes when
      a thread last loaded, its attempts, and whether its first read was stale. */
  datatype State<V> = State(
    memory: seq<V>,
    threads: seq<Thread<V>>,
    log: seq<nat>,
    seen: seq<nat>,
    attempts: seq<nat>,
    stale: seq<bool>)

  /** A step of one thread. The first read is not atomic: it may return anything. */
  datatype Action<V> = Action(thread: nat, read: V)

  ghost predicate WellFormed<V(!new)>(p: Program<V>) {
    forall t :: 0 <= t < |p.calls| ==> p.calls[t].cell < |p.initial|
  }

  ghost predicate Shaped<V(!new)>(p: Program<V>, s: State<V>) {
    && |s.memory| == |p.initial|
    && |s.threads| == |s.seen| == |s.attempts| == |s.stale| == |p.calls|
  }

  ghost function Start<V(!new)>(p: Program<V>): (s: State<V>)
    ensures Shaped(p, s)
  {
    var n := |p.calls|;
    State(p.initial, seq(n, t => Invoked), [], seq(n, t => 0), seq(n, t => 0), seq(n, t => false))
  }

  /** The exchange: it replaces the cell when the cell holds what was expected, and
      otherwise reports what the cell holds. */
  ghost function CompareExchange<V(!new)>(p: Program<V>, s: State<V>, t: nat): (r: State<V>)
    requires WellFormed(p) && Shaped(p, s) && t < |p.calls| && s.threads[t].Computed?
    ensures Shaped(p, r)
  {
    var c, th := p.calls[t].cell, s.threads[t];
    if s.memory[c] == th.expected then
      s.(memory := s.memory[c := th.desired],
         threads := s.threads[t := Returned(th.expected)],
         log := s.log + [t],
         attempts := s.attempts[t := s.attempts[t] + 1])
    else
      s.(threads := s.threads[t := Loaded(s.memory[c])],
         seen := s.seen[t := |s.log|],
         attempts := s.attempts[t := s.attempts[t] + 1])
  }

  /** Either way the thread learns what the cell held at the start; the cell takes the
      desired value exactly when that was the expected one, and nothing else changes. */
  lemma CompareExchangeMeans<V(!new)>(p: Program<V>, s: State<V>, t: nat)
    requires WellFormed(p) && Shaped(p, s) && t < |p.calls| && s.threads[t].Computed?
    ensures var r, c, held := CompareExchange(p, s, t), p.calls[t].cell, s.memory[p.calls[t].cell];
            && (r.threads[t] == if held == s.threads[t].expected then Returned(held) else Loaded(held))
            && (r.memory[c] == if held == s.threads[t].expected then s.threads[t].desired else held)
            && (forall d :: 0 <= d < |s.memory| && d != c ==> r.memory[d] == s.memory[d])
            && (forall u :: 0 <= u < |p.calls| && u != t ==> r.threads[u] == s.threads[u])
  {
  }

  ghost function Step<V(!new)>(p: Program<V>, s: State<V>, a: Action<V>): (r: State<V>)
    requires WellFormed(p) && Shaped(p, s) && a.thread < |p.calls|
    ensures Shaped(p, r)
  {
    var t := a.thread;
    match s.threads[t]
    case Invoked =>
      s.(threads := s.threads[t := Loaded(a.read)],
         seen := s.seen[t := |s.log|],
         stale := s.stale[t := a.read != s.memory[p.calls[t].cell]])
    case Loaded(e) =>
      s.(threads := s.threads[t := Computed(e, p.add(e, p.calls[t].operand))])
    case Computed(e, d) => CompareExchange(p, s, t)
    case Returned(v) => s
  }

  ghost predicate IsSchedule<V(!new)>(p: Program<V>, schedule: seq<Action<V>>) {
    forall i :: 0 <= i < |schedule| ==> schedule[i].thread < |p.calls|
  }

  ghost function Run<V(!new)>(p: Program<V>, schedule: seq<Action<V>>): (s: State<V>)
    requires WellFormed(p) && IsSchedule(p, schedule)
    ensures Shaped(p, s)
  {
    if schedule == [] then Start(p)
    else Step(p, Run(p, schedule[..|schedule| - 1]), schedule[|schedule| - 1])
  }

  // ----- the sequential specification

  ghost predicate IsLog<V(!new)>(p: Program<V>, log: seq<nat>) {
    forall k :: 0 <= k < |log| ==> log[k] < |p.calls|
  }

  /** Cell c after the calls in the log, one at a time: the left fold of the
      operands of the calls on c. */
  ghost function CellAfter<V(!new)>(p: Program<V>, log: seq<nat>, c: nat): V
    requires c < |p.initial| && IsLog(p, log)
  {
    if log == [] then p.initial[c]
    else
      var t, before := log[|log| - 1], CellAfter(p, log[..|log| - 1], c);
      if p.calls[t].cell == c then p.add(before, p.calls[t].operand) else before
  }
}
