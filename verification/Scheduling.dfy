/** Preemptive round robin: what one trap does, and what every run of traps keeps. */
module Scheduling {
  import opened Bytes
  import opened Wrappers

  const TIMER_VECTOR: nat := 32
  const SYSCALL_VECTOR: nat := 0x80
  const USER_CODE: u64 := 0x33
  const USER_DATA: u64 := 0x2b

  const EXIT: u64 := 2
  const YIELD: u64 := 3
  const GETPID: u64 := 4
  const GETTICKS: u64 := 5
  const SLEEP: u64 := 6
  const NOT_IMPLEMENTED: u64 := U64_LIMIT - 38

  /** The saved registers; `flags` is the set of bits of rflags that are set. */
  datatype Frame = Frame(
    registers: seq<u64>,
    rdi: u64,
    rax: u64,
    vector: u64,
    errorCode: u64,
    rip: u64,
    cs: u64,
    flags: set<nat>)

  /** A trap frame with the two stack words above it, which is also what is kept of a
      process that does not run. */
  datatype Context = Context(frame: Frame, stackPointer: u64, stackSelector: u64)

  datatype ProcessState =
    | Runnable
    | Sleeping(wakeTick: nat)
    | Exited(status: u64)
    | Faulted(vector: nat, address: nat, errorCode: u64)

  datatype Process = Process(
    pid: u64,
    root: nat,
    stackTop: nat,
    context: Context,
    state: ProcessState,
    dispatches: nat,
    syscalls: nat)

  predicate UserMode(frame: Frame)
  {
    frame.cs % 4 == 3
  }

  predicate Finished(s: ProcessState)
  {
    s.Exited? || s.Faulted?
  }

  function Initial(entry: u64, stackPointer: u64): (c: Context)
    ensures UserMode(c.frame)
  {
    Context(Frame(seq(13, _ => 0), 0, 0, 0, 0, entry, USER_CODE, {1, 9}), stackPointer, USER_DATA)
  }

  function SaturatingAdd(a: nat, b: nat): nat
  {
    if a + b < U64_LIMIT then a + b else U64_LIMIT - 1
  }

  // ----- Picking the next process

  function WakeOne(p: Process, ticks: nat): Process
  {
    if p.state.Sleeping? && ticks >= p.state.wakeTick then p.(state := Runnable) else p
  }

  function Wake(ps: seq<Process>, ticks: nat): (r: seq<Process>)
    ensures |r| == |ps|
    ensures forall i :: 0 <= i < |ps| ==> r[i] == WakeOne(ps[i], ticks)
  {
    seq(|ps|, i requires 0 <= i < |ps| => WakeOne(ps[i], ticks))
  }

  predicate AnySleeping(ps: seq<Process>)
  {
    exists i :: 0 <= i < |ps| && ps[i].state.Sleeping?
  }

  /** The index `offset` places behind `current` in the circle of `n`. */
  function Around(current: nat, offset: nat, n: nat): (i: nat)
    requires current < n && offset <= n
    ensures i < n
  {
    if current + offset < n then current + offset else current + offset - n
  }

  lemma AroundIsModulo(current: nat, offset: nat, n: nat)
    requires current < n && offset <= n
    ensures Around(current, offset, n) == (current + offset) % n
  {
    var x := current + offset;
    if x < n {
      assert x / n == 0;
    } else {
      assert x == n * 1 + (x - n);
      assert x / n == 1;
    }
  }

  /** How many places `i` is behind `current`, from 1 to `n`. */
  function Ahead(current: nat, i: nat, n: nat): (o: nat)
    requires current < n && i < n
    ensures 1 <= o <= n && Around(current, o, n) == i
    ensures forall k :: 1 <= k <= n && Around(current, k, n) == i ==> k == o
  {
    if current < i then i - current else i + n - current
  }

  /** The first runnable process from `offset` places behind `current`. */
  function NextFrom(ps: seq<Process>, current: nat, offset: nat): (r: Option<nat>)
    requires current < |ps| && 1 <= offset <= |ps| + 1
    ensures r.Some? ==> r.value < |ps| && ps[r.value].state.Runnable? && offset <= Ahead(current, r.value, |ps|)
    ensures forall i :: 0 <= i < |ps| && ps[i].state.Runnable? && offset <= Ahead(current, i, |ps|) ==>
      r.Some? && Ahead(current, r.value, |ps|) <= Ahead(current, i, |ps|)
    decreases |ps| + 1 - offset
  {
    if offset > |ps| then None
    else if ps[Around(current, offset, |ps|)].state.Runnable? then Some(Around(current, offset, |ps|))
    else NextFrom(ps, current, offset + 1)
  }

  function Next(ps: seq<Process>, current: nat): Option<nat>
    requires current < |ps|
  {
    NextFrom(ps, current, 1)
  }

  /** Round robin: with `i` runnable, the turn goes to `i` or comes closer to it. */
  lemma TurnComesCloser(ps: seq<Process>, current: nat, i: nat)
    requires current < |ps| && i < |ps| && ps[i].state.Runnable?
    ensures var r := Next(ps, current);
      r.Some? && (r.value == i || Ahead(r.value, i, |ps|) < Ahead(current, i, |ps|))
  {
  }

  // ----- One trap

  datatype Snapshot = Snapshot(procs: seq<Process>, current: Option<nat>, ticks: nat)

  datatype Event = Event(now: nat, stack: Context, faultAddress: nat)

  datatype Action = Resume | Reschedule | Unhandled

  function WithRax(c: Context, value: u64): Context
  {
    c.(frame := c.frame.(rax := value))
  }

  function Mark(ps: seq<Process>, c: nat, state: ProcessState): seq<Process>
    requires c < |ps|
  {
    ps[c := ps[c].(state := state)]
  }

  /** What the trap itself does to the running process `c`: its state, the frame with the
      result of a system call, and whether to reschedule. */
  function Service(ps: seq<Process>, c: nat, e: Event): (r: (seq<Process>, Context, Action))
    requires c < |ps|
    ensures |r.0| == |ps|
    ensures forall i :: 0 <= i < |ps| && i != c ==> r.0[i] == ps[i]
    ensures r.0[c].context == ps[c].context
    ensures !r.2.Reschedule? ==> r.0[c].state == ps[c].state
    ensures UserMode(e.stack.frame) ==> UserMode(r.1.frame)
  {
    var frame := e.stack.frame;
    var vector := frame.vector % 256;
    if vector == TIMER_VECTOR then (ps, e.stack, Reschedule)
    else if vector == SYSCALL_VECTOR then
      var counted := ps[c := ps[c].(syscalls := SaturatingAdd(ps[c].syscalls, 1))];
      if frame.rax == EXIT then (Mark(counted, c, Exited(frame.rdi)), e.stack, Reschedule)
      else if frame.rax == YIELD then (counted, WithRax(e.stack, 0), Reschedule)
      else if frame.rax == GETPID then (counted, WithRax(e.stack, ps[c].pid), Resume)
      else if frame.rax == GETTICKS then (counted, WithRax(e.stack, e.now % U64_LIMIT), Resume)
      else if frame.rax == SLEEP then
        (Mark(counted, c, Sleeping(SaturatingAdd(e.now, frame.rdi))), WithRax(e.stack, 0), Reschedule)
      else (counted, WithRax(e.stack, NOT_IMPLEMENTED), Resume)
    else if vector <= 31 then
      (Mark(ps, c, Faulted(vector, e.faultAddress, frame.errorCode)), e.stack, Reschedule)
    else (ps, e.stack, Unhandled)
  }

  /** The context of `c` is kept unless it has finished. */
  function Capture(ps: seq<Process>, c: nat, stack: Context): (r: seq<Process>)
    requires c < |ps|
    ensures |r| == |ps|
    ensures forall i :: 0 <= i < |ps| && i != c ==> r[i] == ps[i]
    ensures r[c] == if Finished(ps[c].state) then ps[c] else ps[c].(context := stack)
  {
    if Finished(ps[c].state) then ps else ps[c := ps[c].(context := stack)]
  }

  function Dispatch(ps: seq<Process>, n: nat): (r: seq<Process>)
    requires n < |ps|
    ensures |r| == |ps|
    ensures forall i :: 0 <= i < |ps| ==> r[i].context == ps[i].context && r[i].state == ps[i].state
  {
    ps[n := ps[n].(dispatches := SaturatingAdd(ps[n].dispatches, 1))]
  }

  /** Rescheduling, with nothing failing: the running process is put away, sleepers whose
      tick has come wake up, and the next runnable process continues where it was. If
      nobody is runnable the clock runs on until someone wakes; if nobody sleeps either,
      control goes back to the kernel. */
  ghost predicate Scheduled(before: Snapshot, stack: Context, after: Snapshot, out: Context)
    requires before.current.Some? && before.current.value < |before.procs|
  {
    var c := before.current.value;
    var kept := Capture(before.procs, c, stack);
    var woken := Wake(kept, after.ticks);
    var next := Next(woken, c);
    && before.ticks <= after.ticks
    && (Next(Wake(kept, before.ticks), c).Some? ==> after.ticks == before.ticks)
    && (if next.Some? then
          && after.current == next && after.procs == Dispatch(woken, next.value)
          && out == woken[next.value].context
        else
          !AnySleeping(woken) && after.current == None && after.procs == woken)
  }

  ghost predicate Trapped(before: Snapshot, e: Event, after: Snapshot, out: Context)
  {
    && before.current.Some? && before.current.value < |before.procs|
    && before.ticks <= e.now && UserMode(e.stack.frame)
    && var (ps, stack, action) := Service(before.procs, before.current.value, e);
       if action == Reschedule then Scheduled(Snapshot(ps, before.current, e.now), stack, after, out)
       else after == Snapshot(ps, before.current, e.now) && out == stack
  }

  // ----- What a trap amounts to, read off its frame

  function VectorOf(e: Event): nat
  {
    e.stack.frame.vector % 256
  }

  /** The running process made this system call. */
  predicate MakesCall(e: Event, number: u64)
  {
    VectorOf(e) == SYSCALL_VECTOR && e.stack.frame.rax == number
  }

  /** The timer, a fault, and the calls to exit, yield and sleep end the turn. */
  predicate EndsTurn(e: Event)
  {
    || VectorOf(e) == TIMER_VECTOR || VectorOf(e) <= 31
    || MakesCall(e, EXIT) || MakesCall(e, YIELD) || MakesCall(e, SLEEP)
  }

  /** Traps that are the scheduler's business. */
  predicate Concerned(e: Event)
  {
    VectorOf(e) <= 31 || VectorOf(e) == TIMER_VECTOR || VectorOf(e) == SYSCALL_VECTOR
  }

  /** The frame with which a process goes on: the answer of a system call is in `rax`, and
      every other register is as it was. */
  function Answered(pid: u64, e: Event): Context
  {
    if VectorOf(e) != SYSCALL_VECTOR || e.stack.frame.rax == EXIT then e.stack
    else if e.stack.frame.rax == GETPID then WithRax(e.stack, pid)
    else if e.stack.frame.rax == GETTICKS then WithRax(e.stack, e.now % U64_LIMIT)
    else if e.stack.frame.rax == YIELD || e.stack.frame.rax == SLEEP then WithRax(e.stack, 0)
    else WithRax(e.stack, U64_LIMIT - 38)
  }

  lemma ServiceIs(ps: seq<Process>, c: nat, e: Event)
    requires c < |ps|
    ensures var (qs, stack, action) := Service(ps, c, e);
      && (action == Reschedule <==> EndsTurn(e))
      && (action == Unhandled <==> !Concerned(e))
      && stack == Answered(ps[c].pid, e)
      && qs[c] == ps[c].(
                    state := if MakesCall(e, EXIT) then Exited(e.stack.frame.rdi)
                    else if MakesCall(e, SLEEP) then Sleeping(SaturatingAdd(e.now, e.stack.frame.rdi))
                    else if VectorOf(e) <= 31 then Faulted(VectorOf(e), e.faultAddress, e.stack.frame.errorCode)
                    else ps[c].state,
                    syscalls := if VectorOf(e) == SYSCALL_VECTOR then SaturatingAdd(ps[c].syscalls, 1)
                                else ps[c].syscalls)
  {
  }

  /** A call that does not end the turn is answered on the spot: nothing else changes. */
  lemma AnswersAtOnce(before: Snapshot, e: Event, after: Snapshot, out: Context)
    requires Trapped(before, e, after, out) && !EndsTurn(e)
    ensures var c := before.current.value;
      && out == Answered(before.procs[c].pid, e)
      && after.current == before.current && after.ticks == e.now && |after.procs| == |before.procs|
      && forall i :: 0 <= i < |before.procs| ==>
           after.procs[i] ==
           if i == c && VectorOf(e) == SYSCALL_VECTOR
           then before.procs[i].(syscalls := SaturatingAdd(before.procs[i].syscalls, 1))
           else before.procs[i]
  {
    hide Service, Answered, EndsTurn;
    ServiceIs(before.procs, before.current.value, e);
  }

  /** A process that can run at tick `now`. */
  predicate Ready(s: ProcessState, now: nat)
  {
    s.Runnable? || (s.Sleeping? && s.wakeTick <= now)
  }

  /** The states as they are when the turn is given away. */
  function StateAt(before: Snapshot, e: Event, i: nat): ProcessState
    requires i < |before.procs|
  {
    if before.current != Some(i) then before.procs[i].state
    else if MakesCall(e, EXIT) then Exited(e.stack.frame.rdi)
    else if MakesCall(e, SLEEP) then Sleeping(SaturatingAdd(e.now, e.stack.frame.rdi))
    else if VectorOf(e) <= 31 then Faulted(VectorOf(e), e.faultAddress, e.stack.frame.errorCode)
    else before.procs[i].state
  }

  /** The processes with the running one put away and the sleepers awake whose tick has come. */
  ghost function PutAside(before: Snapshot, e: Event, ticks: nat): (r: seq<Process>)
    requires before.current.Some? && before.current.value < |before.procs|
    ensures |r| == |before.procs|
  {
    var (ps, stack, _) := Service(before.procs, before.current.value, e);
    Wake(Capture(ps, before.current.value, stack), ticks)
  }

  lemma PutAsideIs(before: Snapshot, e: Event, ticks: nat, i: nat)
    requires before.current.Some? && before.current.value < |before.procs| && i < |before.procs|
    ensures var s := StateAt(before, e, i);
      PutAside(before, e, ticks)[i].state == if Ready(s, ticks) then Runnable else s
    ensures before.current != Some(i) ==> PutAside(before, e, ticks)[i].context == before.procs[i].context
    ensures before.current == Some(i) && !Finished(StateAt(before, e, i)) ==>
      PutAside(before, e, ticks)[i].context == Answered(before.procs[i].pid, e)
  {
    hide Answered, Service;
    ServiceIs(before.procs, before.current.value, e);
  }

  /** A trap that ends the turn, in terms of the processes put aside. */
  lemma TurnGoesTo(before: Snapshot, e: Event, after: Snapshot, out: Context)
    requires Trapped(before, e, after, out) && EndsTurn(e)
    ensures e.now <= after.ticks && |after.procs| == |before.procs|
    ensures var c := before.current.value;
      var woken := PutAside(before, e, after.ticks);
      var next := Next(woken, c);
      && after.current == next && (next.None? ==> !AnySleeping(woken) && after.procs == woken)
      && (next.Some? ==> after.procs == Dispatch(woken, next.value) && out == woken[next.value].context)
      && (Next(PutAside(before, e, e.now), c).Some? ==> after.ticks == e.now)
  {
    hide EndsTurn, Service, Next, Wake, Capture, AnySleeping, Dispatch;
    ServiceIs(before.procs, before.current.value, e);
  }

  /** Whoever can run is awake after a turn has ended, and nobody else changes state. */
  lemma WakesInTime(before: Snapshot, e: Event, after: Snapshot, out: Context, i: nat)
    requires Trapped(before, e, after, out) && EndsTurn(e) && i < |before.procs|
    ensures |after.procs| == |before.procs|
    ensures var s := StateAt(before, e, i);
      after.procs[i].state == if Ready(s, after.ticks) then Runnable else s
  {
    hide EndsTurn, Trapped, StateAt, PutAside, Next, AnySleeping;
    TurnGoesTo(before, e, after, out);
    CurrentIs(before, e, after, out);
    PutAsideIs(before, e, after.ticks, i);
  }

  lemma CurrentIs(before: Snapshot, e: Event, after: Snapshot, out: Context)
    requires Trapped(before, e, after, out)
    ensures before.current.Some? && before.current.value < |before.procs|
  {
  }

  /** The next turn is that of the first process behind the running one that can run, and it
      comes at once if there is one. */
  lemma NextIsFirstReady(before: Snapshot, e: Event, after: Snapshot, out: Context, i: nat)
    requires Trapped(before, e, after, out) && EndsTurn(e) && i < |before.procs|
    requires Ready(StateAt(before, e, i), after.ticks)
    ensures before.current.Some? && before.current.value < |before.procs|
    ensures var c, n := before.current.value, |before.procs|;
      && after.current.Some? && after.current.value < n
      && Ready(StateAt(before, e, after.current.value), after.ticks)
      && Ahead(c, after.current.value, n) <= Ahead(c, i, n)
    ensures Ready(StateAt(before, e, i), e.now) ==> after.ticks == e.now
  {
    hide EndsTurn, Trapped, StateAt, PutAside, AnySleeping, Finished;
    TurnGoesTo(before, e, after, out);
    CurrentIs(before, e, after, out);
    PutAsideIs(before, e, after.ticks, i);
    PutAsideIs(before, e, after.ticks, after.current.value);
    PutAsideIs(before, e, e.now, i);
  }

  /** The kernel gets control back exactly if nobody is left who could ever run. */
  lemma NobodyLeft(before: Snapshot, e: Event, after: Snapshot, out: Context)
    requires Trapped(before, e, after, out) && EndsTurn(e)
    ensures after.current.None? <==> forall i :: 0 <= i < |before.procs| ==> Finished(StateAt(before, e, i))
  {
    hide EndsTurn, Trapped, StateAt, PutAside;
    TurnGoesTo(before, e, after, out);
    CurrentIs(before, e, after, out);
    var c, woken := before.current.value, PutAside(before, e, after.ticks);
    forall i | 0 <= i < |before.procs|
      ensures Ready(StateAt(before, e, i), after.ticks) <==> woken[i].state.Runnable?
      ensures !Ready(StateAt(before, e, i), after.ticks) ==> woken[i].state == StateAt(before, e, i)
    {
      PutAsideIs(before, e, after.ticks, i);
    }
    if after.current.None? {
      forall i | 0 <= i < |before.procs|
        ensures Finished(StateAt(before, e, i))
      {
        assert !woken[i].state.Runnable? by {
          assert Ahead(c, i, |woken|) >= 1;
        }
        assert !woken[i].state.Sleeping?;
      }
    }
  }

  /** Whoever gets the turn goes on where it was stopped: with the answer to its call if it
      keeps the turn, and with the context that was kept of it otherwise. */
  lemma GoesOnWithOwnFrame(before: Snapshot, e: Event, after: Snapshot, out: Context)
    requires Trapped(before, e, after, out) && EndsTurn(e) && after.current.Some?
    ensures after.current.value < |before.procs|
    ensures out == if after.current == before.current then Answered(before.procs[after.current.value].pid, e)
                   else before.procs[after.current.value].context
  {
    hide EndsTurn, Trapped, PutAside, Answered, AnySleeping;
    TurnGoesTo(before, e, after, out);
    CurrentIs(before, e, after, out);
    PutAsideIs(before, e, after.ticks, after.current.value);
  }

  /** The timer takes the turn away: it goes to the first other process that can run. */
  lemma TimerPreempts(before: Snapshot, e: Event, after: Snapshot, out: Context, n: nat, i: nat)
    requires Good(before, n) && Trapped(before, e, after, out) && VectorOf(e) == TIMER_VECTOR
    requires i < n && Some(i) != before.current && Ready(before.procs[i].state, e.now)
    ensures after.current.Some? && after.current.value < n && after.current != before.current && after.ticks == e.now
    ensures Ready(before.procs[after.current.value].state, e.now)
    ensures Ahead(before.current.value, after.current.value, n) <= Ahead(before.current.value, i, n)
    ensures out == before.procs[after.current.value].context
    ensures after.procs[before.current.value].context == e.stack && after.procs[before.current.value].state.Runnable?
  {
    hide Trapped, PutAside, Finished, AnySleeping;
    assert EndsTurn(e);
    CurrentIs(before, e, after, out);
    TurnGoesTo(before, e, after, out);
    assert StateAt(before, e, i) == before.procs[i].state;
    NextIsFirstReady(before, e, after, out, i);
    GoesOnWithOwnFrame(before, e, after, out);
    var c := before.current.value;
    assert StateAt(before, e, after.current.value) == before.procs[after.current.value].state;
    FullCircle(c, i, n);
    WakesInTime(before, e, after, out, c);
    TimerKeepsFrame(before, e, after, out);
  }

  lemma FullCircle(c: nat, i: nat, n: nat)
    requires c < n && i < n && c != i
    ensures Ahead(c, i, n) < n == Ahead(c, c, n)
  {
  }

  lemma TimerKeepsFrame(before: Snapshot, e: Event, after: Snapshot, out: Context)
    requires Trapped(before, e, after, out) && VectorOf(e) == TIMER_VECTOR
    requires before.procs[before.current.value].state.Runnable?
    ensures |after.procs| == |before.procs| && after.procs[before.current.value].context == e.stack
  {
    hide Trapped, PutAside, AnySleeping, Next;
    assert EndsTurn(e);
    CurrentIs(before, e, after, out);
    TurnGoesTo(before, e, after, out);
    PutAsideIs(before, e, after.ticks, before.current.value);
  }

  /** Who a process is never changes, and the counters count its calls and its turns. */
  lemma TrapCounts(before: Snapshot, e: Event, after: Snapshot, out: Context, i: nat)
    requires Trapped(before, e, after, out) && i < |before.procs|
    ensures |after.procs| == |before.procs|
    ensures var p, q := before.procs[i], after.procs[i];
      && q.pid == p.pid && q.root == p.root && q.stackTop == p.stackTop
      && q.syscalls == (if before.current == Some(i) && VectorOf(e) == SYSCALL_VECTOR
                        then SaturatingAdd(p.syscalls, 1) else p.syscalls)
      && q.dispatches == (if EndsTurn(e) && after.current == Some(i)
                          then SaturatingAdd(p.dispatches, 1) else p.dispatches)
  {
    hide Service, EndsTurn, NextFrom, AnySleeping, Answered;
    ServiceIs(before.procs, before.current.value, e);
  }

  // ----- Runs

  /** A run from the moment the first of several fresh processes is entered. */
  ghost predicate Run(states: seq<Snapshot>, events: seq<Event>, outs: seq<Context>)
  {
    && |states| == |events| + 1 && |outs| == |events|
    && states[0].current == Some(0) && |states[0].procs| > 0
    && (forall i :: 0 <= i < |states[0].procs| ==> states[0].procs[i].state.Runnable?)
    && (forall t :: 0 <= t < |events| ==> Trapped(states[t], events[t], states[t + 1], outs[t]))
  }

  ghost predicate Good(s: Snapshot, n: nat)
  {
    && |s.procs| == n > 0
    && (s.current.Some? ==> s.current.value < n && s.procs[s.current.value].state.Runnable?)
    && (s.current.None? ==> forall i :: 0 <= i < n ==> Finished(s.procs[i].state))
  }

  lemma TrapKeepsGood(before: Snapshot, e: Event, after: Snapshot, out: Context, n: nat)
    requires Good(before, n) && Trapped(before, e, after, out)
    ensures Good(after, n) && before.ticks <= after.ticks
  {
    hide Service, Capture;
    var c := before.current.value;
    var (ps, stack, action) := Service(before.procs, c, e);
    if action == Reschedule {
      var woken := Wake(Capture(ps, c, stack), after.ticks);
      if Next(woken, c).None? {
        forall i | 0 <= i < n
          ensures Finished(woken[i].state)
        {
          assert Ahead(c, i, n) >= 1;
          assert !woken[i].state.Runnable?;
          assert !woken[i].state.Sleeping?;
        }
      }
    }
  }

  /** Whoever holds the turn is runnable, and the kernel gets control back only when every
      process has exited or faulted. */
  lemma {:induction false} RunsStayGood(states: seq<Snapshot>, events: seq<Event>, outs: seq<Context>, t: nat)
    requires Run(states, events, outs) && t < |states|
    ensures Good(states[t], |states[0].procs|)
  {
    hide Trapped;
    if t > 0 {
      RunsStayGood(states, events, outs, t - 1);
      TrapKeepsGood(states[t - 1], events[t - 1], states[t], outs[t - 1], |states[0].procs|);
    }
  }

  // ----- Every process continues where it was stopped

  /** The frame with which process `i` was last stopped before step `t`, with the result of
      its system call if it made one; its first context if it was never stopped. */
  ghost function LastStopped(states: seq<Snapshot>, events: seq<Event>, t: nat, i: nat): Context
    requires |states| == |events| + 1 && t < |states| && i < |states[0].procs|
  {
    if t == 0 then states[0].procs[i].context
    else if states[t - 1].current == Some(i) && i < |states[t - 1].procs| then
      Answered(states[t - 1].procs[i].pid, events[t - 1])
    else LastStopped(states, events, t - 1, i)
  }

  /** What is kept of a process that waits for its turn is where it was last stopped. */
  ghost predicate KeptFaithfully(states: seq<Snapshot>, events: seq<Event>, t: nat, i: nat)
    requires |states| == |events| + 1 && t < |states| && i < |states[0].procs|
  {
    i < |states[t].procs|
    && (states[t].current != Some(i) && !Finished(states[t].procs[i].state) ==>
          states[t].procs[i].context == LastStopped(states, events, t, i))
  }

  lemma TrapKeepsContexts(before: Snapshot, e: Event, after: Snapshot, out: Context, n: nat, i: nat)
    requires Good(before, n) && Trapped(before, e, after, out) && i < n
    ensures |after.procs| == n
    ensures before.current != Some(i) ==>
      after.procs[i].context == before.procs[i].context
      && (Finished(before.procs[i].state) <==> Finished(after.procs[i].state))
    ensures before.current == Some(i) && after.current != Some(i) && !Finished(after.procs[i].state) ==>
      after.procs[i].context == Answered(before.procs[i].pid, e)
    ensures after.current == Some(i) ==>
      out == if before.current == Some(i) then Answered(before.procs[i].pid, e) else before.procs[i].context
  {
    hide Service, Capture, NextFrom, Answered;
    ServiceIs(before.procs, before.current.value, e);
  }

  lemma {:induction false} ContextsAreKept(states: seq<Snapshot>, events: seq<Event>, outs: seq<Context>, t: nat,
                                           i: nat)
    requires Run(states, events, outs) && t < |states| && i < |states[0].procs|
    ensures KeptFaithfully(states, events, t, i)
  {
    hide Trapped, Answered, Finished;
    RunsStayGood(states, events, outs, t);
    if t > 0 {
      var n := |states[0].procs|;
      RunsStayGood(states, events, outs, t - 1);
      ContextsAreKept(states, events, outs, t - 1, i);
      TrapKeepsContexts(states[t - 1], events[t - 1], states[t], outs[t - 1], n, i);
    }
  }

  /** Whenever a process gets the turn it resumes with exactly the frame it was last
      stopped with, or with its first context. */
  lemma ResumesWhereStopped(states: seq<Snapshot>, events: seq<Event>, outs: seq<Context>, t: nat, i: nat)
    requires Run(states, events, outs) && t < |events| && i < |states[0].procs|
    requires states[t + 1].current == Some(i)
    ensures outs[t] == LastStopped(states, events, t + 1, i)
  {
    hide Trapped, Answered;
    var n := |states[0].procs|;
    RunsStayGood(states, events, outs, t);
    RunsStayGood(states, events, outs, t + 1);
    ContextsAreKept(states, events, outs, t, i);
    TrapKeepsContexts(states[t], events[t], states[t + 1], outs[t], n, i);
  }

  ghost predicate WaitedUntil(states: seq<Snapshot>, t: nat, i: nat)
    requires t < |states|
  {
    forall u :: 0 <= u <= t ==> states[u].current != Some(i)
  }

  lemma {:induction false} NeverStopped(states: seq<Snapshot>, events: seq<Event>, t: nat, i: nat)
    requires |states| == |events| + 1 && t < |states| && i < |states[0].procs|
    requires t > 0 ==> WaitedUntil(states, t - 1, i)
    ensures LastStopped(states, events, t, i) == states[0].procs[i].context
  {
    hide Answered;
    if t > 0 {
      NeverStopped(states, events, t - 1, i);
    }
  }

  /** However long the others ran before, a fresh process starts at its entry point, on its
      own stack and with cleared registers. */
  lemma FirstTurnIsClean(states: seq<Snapshot>, events: seq<Event>, outs: seq<Context>, t: nat, i: nat,
                         entry: u64, stackPointer: u64)
    requires Run(states, events, outs) && t < |events| && i < |states[0].procs|
    requires states[0].procs[i].context == Initial(entry, stackPointer)
    requires states[t + 1].current == Some(i) && WaitedUntil(states, t, i)
    ensures outs[t] == Initial(entry, stackPointer)
  {
    hide Trapped, WaitedUntil, LastStopped;
    ResumesWhereStopped(states, events, outs, t, i);
    NeverStopped(states, events, t + 1, i);
  }

  // ----- Nobody runs too early or too late

  ghost predicate AsleepUntil(s: Snapshot, i: nat, wake: nat)
  {
    i < |s.procs| && (s.procs[i].state == Sleeping(wake) || s.ticks >= wake)
  }

  lemma TrapKeepsAsleep(before: Snapshot, e: Event, after: Snapshot, out: Context, n: nat, i: nat, wake: nat)
    requires Good(before, n) && Trapped(before, e, after, out) && i < n && AsleepUntil(before, i, wake)
    ensures AsleepUntil(after, i, wake)
  {
    hide Service, Capture, Next;
  }

  lemma {:induction false} StaysAsleep(states: seq<Snapshot>, events: seq<Event>, outs: seq<Context>,
                                       t: nat, u: nat, i: nat, wake: nat)
    requires Run(states, events, outs) && t <= u < |states| && i < |states[0].procs|
    requires AsleepUntil(states[t], i, wake)
    ensures AsleepUntil(states[u], i, wake)
    decreases u
  {
    hide Trapped;
    if t < u {
      StaysAsleep(states, events, outs, t, u - 1, i, wake);
      RunsStayGood(states, events, outs, u - 1);
      TrapKeepsAsleep(states[u - 1], events[u - 1], states[u], outs[u - 1], |states[0].procs|, i, wake);
    }
  }

  /** A process that sleeps until a tick does not run before that tick. */
  lemma NeverEarly(states: seq<Snapshot>, events: seq<Event>, outs: seq<Context>, t: nat, u: nat, i: nat, wake: nat)
    requires Run(states, events, outs) && t <= u < |states| && i < |states[0].procs|
    requires |states[t].procs| > i && states[t].procs[i].state == Sleeping(wake)
    ensures states[u].current == Some(i) ==> states[u].ticks >= wake
  {
    hide Trapped;
    StaysAsleep(states, events, outs, t, u, i, wake);
    RunsStayGood(states, events, outs, u);
  }

  lemma TrapPutsToSleep(before: Snapshot, e: Event, after: Snapshot, out: Context, n: nat, i: nat)
    requires Good(before, n) && Trapped(before, e, after, out) && before.current == Some(i) && MakesCall(e, SLEEP)
    ensures AsleepUntil(after, i, SaturatingAdd(e.now, e.stack.frame.rdi))
  {
    hide Capture, NextFrom;
  }

  /** A process that asks to sleep does not run until that many ticks have passed. */
  lemma SleepIsHonoured(states: seq<Snapshot>, events: seq<Event>, outs: seq<Context>, t: nat, u: nat, i: nat)
    requires Run(states, events, outs) && t < u < |states| && states[t].current == Some(i)
    requires MakesCall(events[t], SLEEP)
    ensures states[u].current == Some(i) ==>
      states[u].ticks >= SaturatingAdd(events[t].now, events[t].stack.frame.rdi)
  {
    hide Trapped, MakesCall;
    RunsStayGood(states, events, outs, t);
    RunsStayGood(states, events, outs, u);
    TrapPutsToSleep(states[t], events[t], states[t + 1], outs[t], |states[0].procs|, i);
    StaysAsleep(states, events, outs, t + 1, u, i, SaturatingAdd(events[t].now, events[t].stack.frame.rdi));
  }

  lemma TrapKeepsFinished(before: Snapshot, e: Event, after: Snapshot, out: Context, n: nat, i: nat)
    requires Good(before, n) && Trapped(before, e, after, out) && i < n && Finished(before.procs[i].state)
    ensures |after.procs| == n && after.procs[i].state == before.procs[i].state
  {
    hide Service, Capture, Next;
  }

  /** A process that exited or faulted keeps its outcome and never runs again. */
  lemma {:induction false} NeverAfterEnd(states: seq<Snapshot>, events: seq<Event>, outs: seq<Context>,
                                         t: nat, u: nat, i: nat)
    requires Run(states, events, outs) && t <= u < |states| && i < |states[0].procs|
    requires |states[t].procs| > i && Finished(states[t].procs[i].state)
    ensures |states[u].procs| > i && states[u].procs[i].state == states[t].procs[i].state
    ensures states[u].current != Some(i)
    decreases u
  {
    hide Trapped;
    RunsStayGood(states, events, outs, u);
    if t < u {
      NeverAfterEnd(states, events, outs, t, u - 1, i);
      RunsStayGood(states, events, outs, u - 1);
      TrapKeepsFinished(states[u - 1], events[u - 1], states[u], outs[u - 1], |states[0].procs|, i);
    }
  }

  lemma TrapEnds(before: Snapshot, e: Event, after: Snapshot, out: Context, n: nat, i: nat)
    requires Good(before, n) && Trapped(before, e, after, out) && before.current == Some(i)
    ensures |after.procs| == n
    ensures MakesCall(e, EXIT) ==> after.procs[i].state == Exited(e.stack.frame.rdi)
    ensures e.stack.frame.vector % 256 <= 31 ==>
      after.procs[i].state == Faulted(e.stack.frame.vector % 256, e.faultAddress, e.stack.frame.errorCode)
  {
    hide Capture, NextFrom;
  }

  /** An exit is final, with the status given; so is a fault, with its vector, address and code. */
  lemma EndIsFinal(states: seq<Snapshot>, events: seq<Event>, outs: seq<Context>, t: nat, u: nat, i: nat)
    requires Run(states, events, outs) && t < u < |states| && states[t].current == Some(i)
    requires MakesCall(events[t], EXIT) || events[t].stack.frame.vector % 256 <= 31
    ensures |states[u].procs| > i && states[u].current != Some(i)
    ensures var frame := events[t].stack.frame;
      states[u].procs[i].state ==
      if frame.vector % 256 <= 31 then Faulted(frame.vector % 256, events[t].faultAddress, frame.errorCode)
      else Exited(frame.rdi)
  {
    hide Trapped;
    RunsStayGood(states, events, outs, t);
    TrapEnds(states[t], events[t], states[t + 1], outs[t], |states[0].procs|, i);
    NeverAfterEnd(states, events, outs, t + 1, u, i);
  }

  // ----- Fairness

  /** How many of the traps from `a` up to `b` end a turn. */
  ghost function TurnsEnded(events: seq<Event>, a: nat, b: nat): nat
    requires a <= b <= |events|
  {
    if a == b then 0 else TurnsEnded(events, a, b - 1) + if EndsTurn(events[b - 1]) then 1 else 0
  }

  lemma TrapBringsCloser(before: Snapshot, e: Event, after: Snapshot, out: Context, n: nat, i: nat)
    requires Good(before, n) && Good(after, n) && Trapped(before, e, after, out) && i < n
    requires before.procs[i].state.Runnable? && after.procs[i].state.Runnable? && after.current != Some(i)
    ensures after.current.Some?
    ensures !EndsTurn(e) ==> after.current == before.current
    ensures EndsTurn(e) ==> Ahead(after.current.value, i, n) < Ahead(before.current.value, i, n)
  {
    hide Service, Capture, Next, EndsTurn;
    var c := before.current.value;
    ServiceIs(before.procs, c, e);
    var (ps, stack, action) := Service(before.procs, c, e);
    if action == Reschedule {
      var woken := Wake(Capture(ps, c, stack), after.ticks);
      if woken[i].state.Runnable? {
        TurnComesCloser(woken, c, i);
      }
    }
  }

  /** While `i` stays runnable and is not given the turn, every turn that ends brings its own
      closer: among `n` processes it gets the turn before `n` turns have ended. */
  lemma {:induction false} TurnWithinN(states: seq<Snapshot>, events: seq<Event>, outs: seq<Context>,
                                       a: nat, b: nat, i: nat)
    requires Run(states, events, outs) && a <= b < |states| && i < |states[0].procs|
    requires forall t :: a <= t <= b ==> i < |states[t].procs| && states[t].procs[i].state.Runnable?
    requires forall t :: a < t <= b ==> states[t].current != Some(i)
    ensures TurnsEnded(events, a, b) < |states[0].procs|
    ensures var n := |states[0].procs|;
      states[b].current.Some? && states[b].current.value < n
      && TurnsEnded(events, a, b) + Ahead(states[b].current.value, i, n) <= n
    decreases b
  {
    hide Trapped, EndsTurn;
    var n := |states[0].procs|;
    RunsStayGood(states, events, outs, b);
    assert states[b].procs[i].state.Runnable?;
    if a < b {
      TurnWithinN(states, events, outs, a, b - 1, i);
      RunsStayGood(states, events, outs, b - 1);
      assert states[b - 1].procs[i].state.Runnable?;
      TrapBringsCloser(states[b - 1], events[b - 1], states[b], outs[b - 1], n, i);
    }
  }
}
