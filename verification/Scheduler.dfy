/** The scheduler object: its fields are updated trap by trap, as `Scheduling` specifies. */
module Scheduler {
  import opened Bytes
  import opened Wrappers
  import opened Scheduling

  const KERNEL_CODE: u64 := 0x08

  datatype RuntimeFailure = MissingUserStack | RootSwitch | PrivilegeStack

  lemma WakeTwice(ps: seq<Process>, early: nat, late: nat)
    requires early <= late
    ensures Wake(Wake(ps, early), late) == Wake(ps, late)
  {
  }

  /** The latest tick any sleeper waits for. */
  ghost function LastWake(ps: seq<Process>): (w: nat)
    ensures forall i :: 0 <= i < |ps| && ps[i].state.Sleeping? ==> ps[i].state.wakeTick <= w
  {
    if ps == [] then 0
    else
      var rest := LastWake(ps[..|ps| - 1]);
      var p := ps[|ps| - 1];
      assert forall i :: 0 <= i < |ps| - 1 ==> ps[..|ps| - 1][i] == ps[i];
      if p.state.Sleeping? && p.state.wakeTick > rest then p.state.wakeTick else rest
  }

  /** The frame that makes the trap return into the kernel. */
  function KernelFrame(stack: Context, resume: u64): (c: Context)
    ensures !UserMode(c.frame)
  {
    stack.(frame := stack.frame.(rip := resume, cs := KERNEL_CODE, flags := stack.frame.flags + {1} - {10}))
  }

  /** Every process can be entered: its context is one of user mode and it has a kernel stack. */
  ghost predicate Enterable(ps: seq<Process>)
  {
    forall i :: 0 <= i < |ps| ==> UserMode(ps[i].context.frame) && ps[i].stackTop > 0
  }

  lemma StaysEnterable(ps: seq<Process>, c: nat, stack: Context, ticks: nat)
    requires Enterable(ps) && c < |ps| && (UserMode(stack.frame) || Finished(ps[c].state))
    ensures Enterable(Wake(Capture(ps, c, stack), ticks))
  {
    hide Capture, Wake;
  }

  class SchedulerState {
    var active: bool
    var kernelRoot: nat
    var current: Option<nat>
    var processes: seq<Process>
    var timerPreemptions: nat
    var contextSwitches: nat
    var failure: Option<RuntimeFailure>
    var idleHalts: nat

    // The machine underneath: the clock, the active page table and the privilege stack.
    var ticks: nat
    var activeRoot: nat
    var privilegeStack: nat
    const reliable: bool
    const resume: u64

    /** While a process has the turn, its page table and its kernel stack are the active ones. */
    ghost predicate Valid()
      reads this
    {
      && Enterable(processes)
      && (current.Some? ==>
            && current.value < |processes| && active && failure.None?
            && activeRoot == processes[current.value].root && privilegeStack == processes[current.value].stackTop)
      && (current.None? ==> !active)
      && (current.None? && failure.None? ==> activeRoot == kernelRoot)
    }

    ghost function View(): Snapshot
      reads this
    {
      Snapshot(processes, current, ticks)
    }

    /** Enters the first of the given processes. */
    constructor (processes: seq<Process>, ticks: nat, kernelRoot: nat, reliable: bool, resume: u64)
      requires processes != []
      requires Enterable(processes) && forall i :: 0 <= i < |processes| ==> processes[i].state.Runnable?
      ensures Valid() && current == Some(0) && this.ticks == ticks && this.reliable == reliable
      ensures this.processes == processes[0 := processes[0].(dispatches := 1)]
    {
      this.active := true;
      this.kernelRoot := kernelRoot;
      this.current := Some(0);
      this.processes := processes[0 := processes[0].(dispatches := 1)];
      this.timerPreemptions := 0;
      this.contextSwitches := 0;
      this.failure := None;
      this.idleHalts := 0;
      this.ticks := ticks;
      this.activeRoot := processes[0].root;
      this.privilegeStack := processes[0].stackTop;
      this.reliable := reliable;
      this.resume := resume;
    }

    // ----- The machine

    method SwitchRoot(root: nat) returns (ok: bool)
      modifies this`activeRoot
      ensures reliable ==> ok
      ensures activeRoot == if ok then root else old(activeRoot)
    {
      var fails: bool := *;
      if fails && !reliable {
        return false;
      }
      activeRoot := root;
      return true;
    }

    method SetPrivilegeStack(top: nat) returns (ok: bool)
      modifies this`privilegeStack
      ensures reliable && top > 0 ==> ok
      ensures privilegeStack == if ok then top else old(privilegeStack)
    {
      var fails: bool := *;
      if (fails && !reliable) || top == 0 {
        return false;
      }
      privilegeStack := top;
      return true;
    }

    /** Waits for an interrupt; the clock has moved on when it comes. */
    method Halt()
      modifies this`ticks
      ensures ticks > old(ticks)
    {
      var passed: int := *;
      ticks := ticks + (if passed > 0 then passed else 1);
    }

    // ----- Picking the next process

    method WakeSleepers()
      modifies this`processes
      ensures processes == Wake(old(processes), ticks)
    {
      ghost var before := processes;
      for i := 0 to |processes|
        invariant |processes| == |before|
        invariant forall k :: 0 <= k < |before| ==>
          processes[k] == if k < i then WakeOne(before[k], ticks) else before[k]
      {
        if processes[i].state.Sleeping? && ticks >= processes[i].state.wakeTick {
          processes := processes[i := processes[i].(state := Runnable)];
        }
      }
    }

    method HasSleepers() returns (found: bool)
      ensures found == AnySleeping(processes)
    {
      found := false;
      var i := 0;
      while i < |processes| && !found
        invariant i <= |processes|
        invariant found ==> AnySleeping(processes)
        invariant !found ==> forall k :: 0 <= k < i ==> !processes[k].state.Sleeping?
      {
        found := processes[i].state.Sleeping?;
        i := i + 1;
      }
    }

    method NextRunnable(from: nat) returns (next: Option<nat>)
      requires from < |processes|
      ensures next == Next(processes, from)
    {
      var n := |processes|;
      var offset := 1;
      while offset <= n
        invariant 1 <= offset <= n + 1
        invariant NextFrom(processes, from, offset) == Next(processes, from)
      {
        AroundIsModulo(from, offset, n);
        var index := (from + offset) % n;
        if processes[index].state.Runnable? {
          return Some(index);
        }
        offset := offset + 1;
      }
      return None;
    }

    method ReturnToKernel(stack: Context) returns (out: Context)
      modifies this`activeRoot, this`failure, this`active, this`current
      ensures current == None && !active && !UserMode(out.frame)
      ensures reliable ==> failure == old(failure)
      ensures old(failure).Some? ==> failure.Some?
      ensures failure.None? ==> activeRoot == kernelRoot
    {
      var ok := SwitchRoot(kernelRoot);
      if !ok {
        failure := Some(RootSwitch);
      }
      active := false;
      current := None;
      out := KernelFrame(stack, resume);
    }

    /** Lets time pass until a sleeper wakes. */
    method Idle(from: nat, ghost kept: seq<Process>) returns (next: Option<nat>)
      requires from < |processes| && processes == Wake(kept, ticks) && Next(processes, from) == None
      modifies this`processes, this`ticks, this`idleHalts
      ensures old(ticks) <= ticks && processes == Wake(kept, ticks) && next == Next(processes, from)
      ensures next.None? ==> !AnySleeping(processes)
    {
      hide Next, NextFrom;
      next := None;
      ghost var bound := LastWake(kept);
      var sleeping := HasSleepers();
      while next.None? && sleeping
        invariant old(ticks) <= ticks && processes == Wake(kept, ticks)
        invariant next == Next(processes, from) && sleeping == AnySleeping(processes)
        decreases bound - ticks
      {
        assert ticks < bound;
        ghost var before := ticks;
        idleHalts := SaturatingAdd(idleHalts, 1);
        Halt();
        WakeTwice(kept, before, ticks);
        WakeSleepers();
        next := NextRunnable(from);
        sleeping := HasSleepers();
      }
    }

    /** Gives the turn to process `next`. */
    method Enter(next: nat, stack: Context) returns (out: Context)
      requires next < |processes| && active && failure.None?
      requires Enterable(processes)
      modifies this`current, this`processes, this`activeRoot, this`privilegeStack, this`failure, this`active
      ensures Valid() && processes == Dispatch(old(processes), next)
      ensures failure.None? ==> current == Some(next) && out == processes[next].context
      ensures failure.Some? ==> current.None? && !UserMode(out.frame)
      ensures reliable ==> failure.None?
    {
      current := Some(next);
      processes := processes[next := processes[next].(dispatches := SaturatingAdd(processes[next].dispatches, 1))];
      var process := processes[next];
      var ok := SwitchRoot(process.root);
      if !ok {
        failure := Some(RootSwitch);
        out := ReturnToKernel(stack);
        return;
      }
      ok := SetPrivilegeStack(process.stackTop);
      if !ok {
        failure := Some(PrivilegeStack);
        out := ReturnToKernel(stack);
        return;
      }
      out := process.context;
    }

    /** The first runnable process after `from`, if need be after a wait on the kernel's
        page table; `ok` is false if that table could not be activated. */
    method FindNext(from: nat) returns (next: Option<nat>, ok: bool)
      requires from < |processes|
      modifies this`processes, this`ticks, this`idleHalts, this`activeRoot
      ensures old(ticks) <= ticks && processes == Wake(old(processes), ticks)
      ensures ok ==> next == Next(processes, from) && (next.None? ==> !AnySleeping(processes))
      ensures ok && Next(Wake(old(processes), old(ticks)), from).Some? ==> ticks == old(ticks)
      ensures reliable ==> ok
    {
      hide Next, NextFrom;
      ghost var kept := processes;
      WakeSleepers();
      next := NextRunnable(from);
      ok := true;
      var sleeping := HasSleepers();
      if next.None? && sleeping {
        ok := SwitchRoot(kernelRoot);
        if ok {
          next := Idle(from, kept);
        }
      }
    }

    /** Keeps the frame of the running process unless it has finished. */
    method PutAway(c: nat, stack: Context) returns (ok: bool)
      requires c < |processes|
      modifies this`processes
      ensures ok ==> processes == Capture(old(processes), c, stack)
      ensures ok ==> UserMode(stack.frame) || Finished(old(processes)[c].state)
      ensures !ok ==> processes == old(processes) && !UserMode(stack.frame)
    {
      ok := true;
      if processes[c].state.Runnable? || processes[c].state.Sleeping? {
        if !UserMode(stack.frame) {
          return false;
        }
        processes := processes[c := processes[c].(context := stack)];
      }
    }

    /** Puts the running process away and finds the next one. */
    method Schedule(stack: Context, timer: bool) returns (out: Context)
      requires Valid() && current.Some?
      modifies this
      ensures Valid() && kernelRoot == old(kernelRoot) && |processes| == old(|processes|)
      ensures reliable && UserMode(stack.frame) ==> failure.None? && Scheduled(old(View()), stack, View(), out)
      ensures current.None? ==> !UserMode(out.frame)
      ensures failure.None? && current.Some? && current != old(current) ==>
        contextSwitches == SaturatingAdd(old(contextSwitches), 1)
        && timerPreemptions == if timer then SaturatingAdd(old(timerPreemptions), 1) else old(timerPreemptions)
      ensures failure.None? && current == old(current) ==>
        contextSwitches == old(contextSwitches) && timerPreemptions == old(timerPreemptions)
    {
      hide Next, NextFrom, Wake, Capture, AnySleeping, Dispatch, Enterable;
      var c := current.value;
      ghost var before := processes;
      var ok := PutAway(c, stack);
      if !ok {
        failure := Some(MissingUserStack);
        out := ReturnToKernel(stack);
        return;
      }
      var next;
      next, ok := FindNext(c);
      StaysEnterable(before, c, stack, ticks);
      if !ok {
        failure := Some(RootSwitch);
        out := ReturnToKernel(stack);
        return;
      }
      if next.None? {
        out := ReturnToKernel(stack);
        return;
      }
      if next.value != c {
        contextSwitches := SaturatingAdd(contextSwitches, 1);
        if timer {
          timerPreemptions := SaturatingAdd(timerPreemptions, 1);
        }
      }
      NextIsRunnable(processes, c);
      out := Enter(next.value, stack);
    }

    /** One trap from user mode while a process has the turn. */
    method HandleUserTrap(e: Event) returns (handled: bool, out: Context)
      requires Valid() && ticks == e.now
      modifies this
      ensures Valid()
      ensures old(current).None? ==> !handled && out == e.stack && View() == old(View())
      ensures old(current).Some? ==> (handled <==> Concerned(e))
      ensures old(current).Some? && reliable && UserMode(e.stack.frame) ==>
        failure.None? && Trapped(old(View()), e, View(), out)
      ensures old(current).Some? && current.None? ==> !UserMode(out.frame)
      ensures failure.None? && current.Some? ==>
        && contextSwitches == (if current != old(current) then SaturatingAdd(old(contextSwitches), 1)
                               else old(contextSwitches))
        && timerPreemptions == (if current != old(current) && VectorOf(e) == TIMER_VECTOR
                                then SaturatingAdd(old(timerPreemptions), 1) else old(timerPreemptions))
    {
      hide Scheduled, Wake, Next;
      out := e.stack;
      if !active || current.None? {
        return false, out;
      }
      var c := current.value;
      ghost var before := processes;
      var vector := e.stack.frame.vector % 256;
      var frame := e.stack.frame;
      handled := true;
      if vector == TIMER_VECTOR {
        out := Schedule(out, true);
      } else if vector == SYSCALL_VECTOR {
        processes := processes[c := processes[c].(syscalls := SaturatingAdd(processes[c].syscalls, 1))];
        if frame.rax == EXIT {
          processes := processes[c := processes[c].(state := Exited(frame.rdi))];
          assert processes == Service(before, c, e).0;
          out := Schedule(out, false);
        } else if frame.rax == YIELD {
          out := WithRax(out, 0);
          assert processes == Service(before, c, e).0;
          out := Schedule(out, false);
        } else if frame.rax == GETPID {
          out := WithRax(out, processes[c].pid);
        } else if frame.rax == GETTICKS {
          out := WithRax(out, ticks % U64_LIMIT);
        } else if frame.rax == SLEEP {
          var wakeTick := SaturatingAdd(ticks, frame.rdi);
          out := WithRax(out, 0);
          processes := processes[c := processes[c].(state := Sleeping(wakeTick))];
          assert processes == Service(before, c, e).0;
          out := Schedule(out, false);
        } else {
          out := WithRax(out, NOT_IMPLEMENTED);
        }
      } else if vector <= 31 {
        processes := processes[c := processes[c].(state := Faulted(vector, e.faultAddress, frame.errorCode))];
        assert processes == Service(before, c, e).0;
        out := Schedule(out, false);
      } else {
        handled := false;
      }
    }
  }

  lemma NextIsRunnable(ps: seq<Process>, c: nat)
    requires c < |ps| && Next(ps, c).Some?
    ensures Next(ps, c).value < |ps| && ps[Next(ps, c).value].state.Runnable?
  {
  }
}
