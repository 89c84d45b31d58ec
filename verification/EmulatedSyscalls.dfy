/** The emulations in flight, and the steps the tracer takes for them. */
module EmulatedSyscalls {
  import opened Options
  import opened TraceeMemory
  import opened Words
  import opened PtraceKernel
  import opened Sequences
  import opened Takeover

  lemma Unmoved(procs: map<Pid, Proc>, pid: Pid)
    requires pid in procs
    ensures procs == procs[pid := procs[pid].(regs := procs[pid].regs, mem := procs[pid].mem)]
  {
  }

  class Emulations {
    var active: map<Pid, Active>
    /** How many socket names have been given out; each name has its number in it. */
    var sequence: nat
    const timerFds: TimerFd.TimerFds
    const kernel: Kernel

    constructor (kernel: Kernel)
      ensures active == map[] && sequence == 0 && this.kernel == kernel
      ensures fresh(timerFds) && timerFds.Snapshot() == TimerFd.State(map[], {}, false, None, false)
    {
      active, sequence := map[], 0;
      timerFds := new TimerFd.TimerFds();
      this.kernel := kernel;
    }

    /** This tracee's emulation, when one is in flight. */
    ghost function Of(pid: Pid): Option<Active>
      reads this
    {
      if pid in active then Some(active[pid]) else None
    }

    method Busy(pid: Pid) returns (busy: bool)
      ensures busy == Of(pid).Some?
    {
      busy := pid in active;
    }

    method Forget(pid: Pid)
      modifies this`active
      ensures active == old(active) - {pid}
    {
      active := active - {pid};
    }

    /** The state after a call was looked at is that of `b`. */
    twostate predicate Left(pid: Pid, b: Begun, taken: bool)
      requires old(pid in kernel.procs)
      reads this, kernel
    {
      && taken == b.active.Some?
      && active == (if b.active.Some? then old(active)[pid := b.active.value] else old(active))
      && sequence == b.sequence
      && kernel.procs == old(kernel.procs)[pid := old(kernel.procs[pid]).(regs := b.regs, mem := b.mem)]
    }

    method Gadget(pid: Pid, regs: Regs) returns (gadget: Option<U64>)
      requires pid in kernel.procs
      ensures gadget == GadgetFor(kernel.procs[pid].mem, regs)
    {
      var address: int := WrappingSub(regs.rip, 2);
      var word := PeekWord(kernel.procs[pid].mem, address);
      if word.None? {
        return None;
      }
      assert word.value[0] == kernel.procs[pid].mem[address] && word.value[1] == kernel.procs[pid].mem[address + 1];
      if (word.value[0] == 0x0f && word.value[1] == 0x05) || (word.value[0] == 0xcd && word.value[1] == 0x80) {
        return Some(address);
      }
      gadget := None;
    }

    /** The queue's head goes into the registers, and the rest waits. Since the tracee is on its
        way in already, the head has one stop left, not two: `atEntry` starts out false. */
    method StartSequence(pid: Pid, regs: Regs, gadget: U64, queue: seq<Step>, outcome: Outcome, clockid: int)
      requires pid in kernel.procs && pid !in active && queue != []
      modifies this`active, kernel
      ensures var mem := old(kernel.procs)[pid].mem;
              Left(pid, Takeover.StartSequence(regs, mem, old(sequence), gadget, queue, outcome, clockid), true)
    {
      var first := queue[0];
      active := active[pid := Sequence(regs, gadget, queue[1..], Some(first), false, [], outcome, -1, -1, -1, clockid)];
      kernel.SetRegs(pid, Patched(regs, Build(first, -1, -1, -1)));
    }

    /** getpid runs in the call's place, and a Fixup keeps what the application is to see. */
    method StandIn(pid: Pid, regs: Regs, result: I64)
      requires pid in kernel.procs && pid !in active
      modifies this`active, kernel
      ensures Left(pid, Takeover.StandIn(regs, old(kernel.procs)[pid].mem, old(sequence), result), true)
    {
      kernel.SetRegs(pid, regs.(origRax := SYS_GETPID, rax := SYS_GETPID));
      active := active[pid := Fixup(result)];
    }

    method BeginEpollPwait(env: Env, pid: Pid) returns (taken: bool)
      requires pid in kernel.procs && pid !in active
      modifies this`active, kernel
      ensures Left(pid, EpollPwait(env, old(sequence), old(kernel.procs[pid]).regs, old(kernel.procs[pid]).mem), taken)
    {
      Unmoved(kernel.procs, pid);
      var regs := kernel.procs[pid].regs;
      taken := false;
      if env.before2_6_19 {
        var gadget := Gadget(pid, regs);
        if gadget.Some? {
          var scratch := Scratch(regs.rsp);
          var queue := [Sigprocmask(regs.r8, scratch, false),
                        EpollWait(regs.rdi, regs.rsi, regs.rdx, regs.r10),
                        Sigprocmask(scratch, 0, true)];
          StartSequence(pid, regs, gadget.value, queue, Call(1), 0);
          taken := true;
        }
      }
    }

    method BeginVectorIo(env: Env, pid: Pid, write: bool) returns (taken: bool)
      requires pid in kernel.procs && pid !in active
      modifies this`active, kernel
      ensures var p := old(kernel.procs[pid]);
              Left(pid, VectorTransfer(env, old(sequence), p.regs, p.mem, write), taken)
    {
      Unmoved(kernel.procs, pid);
      var regs := kernel.procs[pid].regs;
      taken := false;
      if env.before2_6_30 {
        var gadget := Gadget(pid, regs);
        if gadget.Some? {
          var queue := [Lseek(regs.rdi, Signed(regs.r10)), VectorIo(write, regs.rdi, regs.rsi, regs.rdx)];
          assert queue == TransferQueue(regs, write);
          StartSequence(pid, regs, gadget.value, queue, Call(1), 0);
          taken := true;
        }
      }
    }

    method BeginDupfdCloexec(env: Env, pid: Pid) returns (taken: bool)
      requires pid in kernel.procs && pid !in active
      modifies this`active, kernel
      ensures var p := old(kernel.procs[pid]); Left(pid, DupfdCloexec(env, old(sequence), p.regs, p.mem), taken)
    {
      Unmoved(kernel.procs, pid);
      var regs := kernel.procs[pid].regs;
      taken := false;
      if regs.rsi == F_DUPFD_CLOEXEC && env.before2_6_24 {
        var gadget := Gadget(pid, regs);
        if gadget.Some? {
          StartSequence(pid, regs, gadget.value, [FcntlDupfd(regs.rdi, regs.rdx), FcntlCloexec(Result)], Call(0), 0);
          taken := true;
        }
      }
    }

    method PlaceEventfdBuffers(pid: Pid, name: nat, regs: Regs) returns (ok: bool)
      requires pid in kernel.procs
      modifies kernel
      ensures ok == EventfdBuffers(pid, name, regs, old(kernel.procs[pid]).mem).0
      ensures var p := old(kernel.procs[pid]);
              kernel.procs == old(kernel.procs)[pid := p.(mem := EventfdBuffers(pid, name, regs, p.mem).1)]
    {
      var scratch := Scratch(regs.rsp);
      ok := kernel.Write(pid, scratch, SocketAddress(pid, name));
      if ok && regs.rdi != 0 {
        ok := kernel.Write(pid, (scratch + 256) % TWO64, ToBytes(regs.rdi, 8));
      }
    }

    method PushEventfdQueue(regs: Regs, length: U64) returns (queue: seq<Step>)
      ensures queue == EventfdQueue(Scratch(regs.rsp), length, regs.rsi, regs.rdi) && queue != []
    {
      var scratch := Scratch(regs.rsp);
      queue := [Socket, Attach(Result, scratch, length, false), Attach(Result, scratch, length, true)];
      if Bit(regs.rsi, EFD_NONBLOCK) {
        queue := queue + [Nonblock(Result)];
      }
      if regs.rdi != 0 {
        queue := queue + [WriteInitial(Result, (scratch + 256) % TWO64)];
      }
    }

    method BeginEventfd(env: Env, pid: Pid) returns (taken: bool)
      requires pid in kernel.procs && pid !in active
      modifies this`active, this`sequence, kernel
      ensures var p := old(kernel.procs[pid]); Left(pid, Eventfd(env, pid, old(sequence), p.regs, p.mem), taken)
    {
      Unmoved(kernel.procs, pid);
      var regs := kernel.procs[pid].regs;
      if !env.eventfdMissing || regs.rdi > 0xffff_ffff {
        return false;
      }
      var gadget := Gadget(pid, regs);
      if gadget.None? {
        return false;
      }
      var name := sequence;
      sequence := sequence + 1;
      var ok := PlaceEventfdBuffers(pid, name, regs);
      if !ok {
        return false;
      }
      var queue := PushEventfdQueue(regs, |SocketAddress(pid, name)| % TWO64);
      StartSequence(pid, regs, gadget.value, queue, Call(0), 0);
      taken := true;
    }

    method BeginTimerfdCreate(env: Env, pid: Pid) returns (taken: bool)
      requires pid in kernel.procs && pid !in active
      modifies this`active, kernel
      ensures var p := old(kernel.procs[pid]); Left(pid, TimerfdCreate(env, old(sequence), p.regs, p.mem), taken)
    {
      Unmoved(kernel.procs, pid);
      var regs := kernel.procs[pid].regs;
      if !env.timerfdMissing {
        return false;
      }
      var clockid := AsI32(ReplacedClock(env, regs.rdi));
      var gadget := Gadget(pid, regs);
      if gadget.None? {
        return false;
      }
      var queue := [Pipe(Scratch(regs.rsp)), Close(WriteEnd)];
      if Bit(regs.rsi, TFD_NONBLOCK) {
        queue := queue + [Nonblock(ReadEnd)];
      }
      assert queue == TimerfdQueue(regs);
      StartSequence(pid, regs, gadget.value, queue, Adopted, clockid);
      taken := true;
    }

    method SetTimer(regs: Regs, requested: seq<Byte>, clock: TimerFd.Clock) returns (ok: bool)
      requires |requested| == 32 && Signed(regs.rdi) in timerFds.timers
      modifies timerFds
      ensures ok == TimerFd.Settable(old(timerFds.timers)[Signed(regs.rdi)], Bit(regs.rsi, 1),
                                     ReadTime(requested, 16), clock)
      ensures TimerOpDone(old(timerFds.Snapshot()), timerFds.Snapshot(), if ok then SetOp(regs, requested) else NoOp,
                          clock)
    {
      ok := timerFds.SetTime(Signed(regs.rdi), Bit(regs.rsi, 1), ReadTime(requested, 0), ReadTime(requested, 16),
                             clock);
    }

    method ReportOld(pid: Pid, at: U64, t: TimerFd.Timer, clock: TimerFd.Clock) returns (ok: bool)
      requires pid in kernel.procs
      modifies kernel
      ensures ok == OldReported(at, old(kernel.procs[pid]).mem, t, clock).0
      ensures var p := old(kernel.procs[pid]);
              kernel.procs == old(kernel.procs)[pid := p.(mem := OldReported(at, p.mem, t, clock).1)]
    {
      ok := true;
      if at != 0 {
        ok := kernel.Write(pid, at, CurrentSetting(t, Reading(t, clock)));
      }
    }

    method BeginTimerfdSettime(pid: Pid, out: Outside) returns (taken: bool)
      requires pid in kernel.procs && pid !in active
      requires out.timer == TimerNamed(timerFds.timers, Signed(kernel.procs[pid].regs.rdi))
      requires kernel.procs[pid].regs.origRax == SYS_TIMERFD_SETTIME
      modifies this`active, kernel, timerFds
      ensures var p := old(kernel.procs[pid]);
              && Left(pid, TimerfdSettime(old(sequence), p.regs, p.mem, out), taken)
              && TimerOpDone(old(timerFds.Snapshot()), timerFds.Snapshot(),
                             SettimeOp(old(sequence), p.regs, p.mem, out), out.clock)
    {
      Unmoved(kernel.procs, pid);
      var regs := kernel.procs[pid].regs;
      var fd := Signed(regs.rdi);
      if fd !in timerFds.timers {
        return false;
      }
      var requested := kernel.Read(pid, regs.rdx, 32);
      if requested.None? {
        return false;
      }
      var ok := ReportOld(pid, regs.r10, timerFds.timers[fd], out.clock);
      if !ok {
        return false;
      }
      ok := SetTimer(regs, requested.value, out.clock);
      if !ok {
        return false;
      }
      StandIn(pid, regs, 0);
      taken := true;
    }

    method BeginTimerfdGettime(pid: Pid, out: Outside) returns (taken: bool)
      requires pid in kernel.procs && pid !in active
      requires out.timer == TimerNamed(timerFds.timers, Signed(kernel.procs[pid].regs.rdi))
      modifies this`active, kernel
      ensures var p := old(kernel.procs[pid]); Left(pid, TimerfdGettime(old(sequence), p.regs, p.mem, out), taken)
    {
      Unmoved(kernel.procs, pid);
      var regs := kernel.procs[pid].regs;
      var fd := Signed(regs.rdi);
      if fd !in timerFds.timers {
        return false;
      }
      var t := timerFds.timers[fd];
      var ok := kernel.Write(pid, regs.rsi, CurrentSetting(t, Reading(t, out.clock)));
      if !ok {
        return false;
      }
      StandIn(pid, regs, 0);
      taken := true;
    }

    /** The dispatch on the call's number. A close is never taken over, but the timer on its fd
        is dropped on the way. */
    method Begin(env: Env, pid: Pid, entering: bool, out: Outside) returns (taken: bool)
      requires pid in kernel.procs && pid !in active
      requires out.timer == TimerNamed(timerFds.timers, Signed(kernel.procs[pid].regs.rdi))
      modifies this`active, this`sequence, kernel, timerFds
      ensures var p := old(kernel.procs[pid]);
              && Left(pid, Takeover.Begin(env, pid, old(sequence), p.regs, p.mem, entering, out), taken)
              && TimerOpDone(old(timerFds.Snapshot()), timerFds.Snapshot(),
                             BeginTimerOp(env, old(sequence), p.regs, p.mem, entering, out), out.clock)
    {
      Unmoved(kernel.procs, pid);
      var regs := kernel.procs[pid].regs;
      if !entering || regs.cs != CS_64 {
        return false;
      }
      if regs.origRax == SYS_CLOSE {
        timerFds.Close(Signed(regs.rdi));
        return false;
      }
      if regs.origRax == SYS_EVENTFD || regs.origRax == SYS_EVENTFD2 {
        taken := BeginEventfd(env, pid);
      } else if regs.origRax == SYS_TIMERFD_CREATE {
        taken := BeginTimerfdCreate(env, pid);
      } else if regs.origRax == SYS_TIMERFD_SETTIME {
        taken := BeginTimerfdSettime(pid, out);
      } else if regs.origRax == SYS_TIMERFD_GETTIME {
        taken := BeginTimerfdGettime(pid, out);
      } else if regs.origRax == SYS_FCNTL {
        taken := BeginDupfdCloexec(env, pid);
      } else if regs.origRax == SYS_PWRITEV {
        taken := BeginVectorIo(env, pid, true);
      } else if regs.origRax == SYS_PREADV {
        taken := BeginVectorIo(env, pid, false);
      } else if regs.origRax == SYS_EPOLL_PWAIT {
        taken := BeginEpollPwait(env, pid);
      } else {
        taken := false;
      }
    }

    /** The timer behind a captured pipe is keyed by the pipe's first fd, and starts disarmed. */
    method CapturePipe(pid: Pid, buffer: U64, clockid: int, reopened: bool, ghost clock: TimerFd.Clock)
      returns (fds: Option<(I64, I64)>)
      requires pid in kernel.procs
      modifies timerFds
      ensures fds == Captured(kernel.procs[pid].mem, buffer, reopened)
      ensures TimerOpDone(old(timerFds.Snapshot()), timerFds.Snapshot(),
                          if fds.Some? then CreateFd(fds.value.0, clockid) else NoOp, clock)
    {
      var raw := kernel.Read(pid, buffer, 8);
      if raw.None? || !reopened {
        return None;
      }
      FitsI64(kernel.procs[pid].mem, buffer);
      var readEnd: I64, writeEnd: I64 := ReadI32(raw.value[0..4]), ReadI32(raw.value[4..8]);
      timerFds.Create(readEnd, clockid);
      fds := Some((readEnd, writeEnd));
    }

    /** The first error among the results. */
    static method Failure(results: seq<I64>) returns (failure: Option<I64>)
      ensures failure == FirstError(results)
    {
      for i := 0 to |results|
        invariant FirstError(results) == FirstError(results[i..])
      {
        if IsError(results[i]) {
          return Some(results[i]);
        }
      }
      failure := None;
    }

    /** Take the step to make next off the queue. */
    static method TakeNext(queue: seq<Step>, results: seq<I64>) returns (next: Option<Step>, rest: seq<Step>)
      requires results != []
      ensures next.Some? <==> Remaining(queue, results) != []
      ensures next.Some? ==> Remaining(queue, results) == [next.value] + rest
    {
      var failure := Failure(results);
      rest := queue;
      if failure.None? {
        if rest != [] {
          return Some(rest[0]), rest[1..];
        }
        return None, rest;
      }
      var tookEffect := |results| > 1;
      for i := 0 to |results| - 1
        invariant tookEffect <==> |results| > 1 && AllSucceeded(results[..i])
      {
        assert results[..i + 1] == results[..i] + [results[i]];
        SucceededAppend(results[..i], results[i]);
        tookEffect := tookEffect && results[i] >= 0;
      }
      if tookEffect {
        while rest != []
          invariant SkipToCleanup(queue) == SkipToCleanup(rest)
        {
          var step := rest[0];
          rest := rest[1..];
          if IsAlways(step) {
            return Some(step), rest;
          }
        }
      }
      next := None;
    }

    /** The result joins the list, a first socket or duplicate sets the fd, and after a pipe call
        its two fds are looked up, or EIO joins the list as well. */
    method Collect(pid: Pid, a: Active, rax: I64, out: Outside) returns (b: Active, ghost captured: Option<(I64, I64)>)
      requires pid in kernel.procs && a.Sequence? && !a.atEntry
      modifies timerFds
      ensures captured == PipeCapture(a, kernel.procs[pid].mem, out.reopened)
      ensures b == Collected(a, rax, captured)
      ensures TimerOpDone(old(timerFds.Snapshot()), timerFds.Snapshot(), CaptureOp(a, captured), out.clock)
    {
      captured := None;
      b := a.(results := a.results + [rax], running := None);
      if |b.results| == 1 && a.running.Some? && (a.running.value.Socket? || a.running.value.FcntlDupfd?) {
        b := b.(fd := rax);
      }
      if a.running.Some? && a.running.value.Pipe? {
        var fds := CapturePipe(pid, a.running.value.buffer, a.clockid, out.reopened, out.clock);
        captured := fds;
        if fds.Some? {
          b := b.(readEnd := fds.value.0, writeEnd := fds.value.1, fd := fds.value.0);
        } else {
          b := b.(results := b.results + [-EIO]);
        }
      }
    }

    /** What `Next` says: the next call of the queue, or the saved registers with the answer. */
    method Continue(pid: Pid, a: Active)
      requires pid in kernel.procs && pid !in active && a.Sequence? && a.results != []
      modifies this`active, kernel
      ensures Went(pid, Next(a, old(kernel.procs[pid]).regs))
    {
      var next, rest := TakeNext(a.queue, a.results);
      if next.Some? {
        var call := Build(next.value, a.fd, a.readEnd, a.writeEnd);
        kernel.SetRegs(pid, Patched(kernel.procs[pid].regs, call).(rip := a.gadget));
        active := active[pid := a.(queue := rest, running := next, atEntry := true)];
        return;
      }
      var value;
      match a.outcome {
        case Call(i) => value := if i < |a.results| then a.results[i] else -EINVAL;
        case Adopted => value := a.fd;
      }
      if value < 0 {
        var failure := Failure(a.results);
        if failure.Some? {
          value := failure.value;
        }
      }
      kernel.SetRegs(pid, a.saved.(rax := Unsigned(value)));
    }

    twostate predicate Went(pid: Pid, m: Moved)
      requires old(pid in kernel.procs)
      reads this, kernel
    {
      && active == (if m.active.Some? then old(active)[pid := m.active.value] else old(active) - {pid})
      && kernel.procs == old(kernel.procs)[pid := old(kernel.procs[pid]).(regs := m.regs)]
    }

    /** What `Advance` says, done to the map and the registers. */
    method Step(pid: Pid, out: Outside) returns (ghost captured: Option<(I64, I64)>)
      requires pid in kernel.procs && pid in active
      modifies this`active, kernel, timerFds
      ensures captured == PipeCapture(old(active[pid]), old(kernel.procs[pid]).mem, out.reopened)
      ensures Went(pid, Advance(old(active[pid]), old(kernel.procs[pid]).regs, captured))
      ensures TimerOpDone(old(timerFds.Snapshot()), timerFds.Snapshot(), CaptureOp(old(active[pid]), captured),
                          out.clock)
    {
      captured := None;
      Unmoved(kernel.procs, pid);
      var a := active[pid];
      active := active - {pid};
      if a.Fixup? {
        kernel.SetRegs(pid, kernel.procs[pid].regs.(rax := Unsigned(a.result)));
        return;
      }
      if a.atEntry {
        active := active[pid := a.(atEntry := false)];
        return;
      }
      var b;
      b, captured := Collect(pid, a, Signed(kernel.procs[pid].regs.rax), out);
      Continue(pid, b);
    }
  }
}
