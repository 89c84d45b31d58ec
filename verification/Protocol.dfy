/** Whole runs of the tracer and its tracees: every interleaving of births, deaths, stops of
    any kind, and reuse of pids, in every tracing mode. */
module Protocol {
  import opened Options
  import opened Words
  import opened PtraceKernel
  import opened Sequences
  import opened Takeover
  import opened Supervision

  /** An injected call that ran: the mask it ran under, its result, and the mask it left. */
  datatype Ran = Ran(call: Request6, before: SigMask, rc: I64, after: SigMask)

  /** The call that these registers are of. */
  function CallIn(regs: Regs): Request6 {
    Request6(regs.origRax, regs.rdi, regs.rsi, regs.rdx, regs.r10, regs.r8, regs.r9)
  }

  /** What an observer remembers of the latest call that was taken over: the tracee as it
      stopped there, how many eventfds had been named by then, how many calls were planned, the
      stops since, the signals held back, and the injected calls that ran. `disturbed` is set
      when something other than these calls may have run in between: when a SIGTRAP was passed
      on, or when the instruction the calls are made from is no `syscall`, be it an `int 0x80`
      or overwritten by the scratch area. */
  datatype Taken = Taken(entry: Proc, named: nat, planned: nat, stops: nat, held: seq<int>, ran: seq<Ran>,
                         disturbed: bool)

  /** `call` has the registers at the application's latest call that stopped and was not taken
      over. */
  datatype Seen = Seen(taken: Option<Taken>, call: Option<Regs>)

  function CallRsp(seen: Seen): Option<U64> { if seen.call.Some? then Some(seen.call.value.rsp) else None }

  datatype Sys = Sys(procs: map<Pid, Proc>, views: map<Pid, View>, seen: map<Pid, Seen>, sequence: nat)

  datatype Event =
    | Born(pid: Pid, p: Proc)
    | Gone(pid: Pid)
    | Stops(pid: Pid, stop: Stop, q: Proc, out: Outside, filled: Filled)

  function ViewIn(s: Sys, pid: Pid): View { if pid in s.views then s.views[pid] else BLANK }

  function SeenIn(s: Sys, pid: Pid): Seen { if pid in s.seen then s.seen[pid] else Seen(None, None) }

  function PlannedCalls(a: Active): nat {
    match a
    case Fixup(_) => 1
    case Sequence(_, _, queue, _, _, _, _, _, _, _, _) => |queue| + 1
  }

  function TakenOver(q: Proc, after: After, a: Active): Taken {
    Taken(q, after.sequence, PlannedCalls(a), 0, [], [], a.Sequence? && !AtSyscall(after.proc.mem, a.gadget))
  }

  /** An injected call's stop: an exit stop completes one of the calls. */
  function InjectedStop(t: Taken, a: Active, p: Proc, q: Proc): Taken {
    var t1 := t.(stops := t.stops + 1);
    if a.Sequence? && a.atEntry then t1
    else t1.(ran := t.ran + [Ran(CallIn(q.regs), p.mask, Signed(q.regs.rax), q.mask)])
  }

  function SignalSeen(t: Taken, sig: int): Taken {
    if Held(sig) then t.(held := t.held + [sig]) else t.(disturbed := t.disturbed || sig == SIGTRAP)
  }

  /** What the observer adds when p ran to q, stopped, and was resumed as `after`. */
  function Observed(c: Config, seen: Seen, v: View, p: Proc, stop: Stop, q: Proc, after: After): Seen {
    match stop
    case SyscallStop =>
      if c.mode == Filtered then seen
      else if v.active.Some? then
        if seen.taken.Some? then seen.(taken := Some(InjectedStop(seen.taken.value, v.active.value, p, q))) else seen
      else if after.view.active.Some? then seen.(taken := Some(TakenOver(q, after, after.view.active.value)))
      else if !v.inSyscall then seen.(call := Some(q.regs))
      else seen
    case SignalStop(sig) =>
      if v.active.Some? && seen.taken.Some? then seen.(taken := Some(SignalSeen(seen.taken.value, sig))) else seen
    case SeccompStop => seen.(call := Some(q.regs))
    case EventStop => seen
  }

  /** A stop of one tracee: what was remembered and seen of it, the tracee as it was resumed,
      and the tracee as it stopped. */
  datatype Moment = Moment(c: Config, pid: Pid, v: View, seen: Seen, p: Proc, stop: Stop, q: Proc,
                           n: nat, out: Outside, filled: Filled)

  function AfterStop(m: Moment): After { Handle(m.c, m.pid, m.v, m.q, m.stop, m.n, m.out, m.filled) }

  function SeenAfter(m: Moment): Seen { Observed(m.c, m.seen, m.v, m.p, m.stop, m.q, AfterStop(m)) }

  function MomentOf(c: Config, s: Sys, ev: Event): Moment
    requires ev.Stops? && ev.pid in s.procs
  {
    Moment(c, ev.pid, ViewIn(s, ev.pid), SeenIn(s, ev.pid), s.procs[ev.pid], ev.stop, ev.q, s.sequence, ev.out,
           ev.filled)
  }

  function SysAfter(s: Sys, m: Moment): Sys {
    Sys(s.procs[m.pid := AfterStop(m).proc], s.views[m.pid := AfterStop(m).view],
        s.seen[m.pid := SeenAfter(m)], AfterStop(m).sequence)
  }

  ghost predicate StopStep(c: Config, s: Sys, ev: Event, s': Sys)
    requires ev.Stops?
  {
    && ev.pid in s.procs
    && var m := MomentOf(c, s, ev);
    && (m.stop.SeccompStop? ==> c.mode == Filtered)
    && RunsTo(c.order, m.p, m.stop, m.q)
    && FillMatches(c, m.v, m.q, m.stop, m.out, m.filled)
    && s' == SysAfter(s, m)
  }

  /** A new child has not been resumed, and its first syscall stop is an entry. */
  predicate Newborn(p: Proc) {
    p.next == Entry && !p.filtered && p.resumed == Unresumed && p.injected.None? && Installable(p.mask)
  }

  ghost predicate Happens(c: Config, s: Sys, ev: Event, s': Sys) {
    match ev
    case Born(pid, p) => pid !in s.procs && Newborn(p) && s' == s.(procs := s.procs[pid := p])
    case Gone(pid) =>
      pid in s.procs && s' == s.(procs := s.procs - {pid}, views := s.views[pid := BLANK], seen := s.seen - {pid})
    case Stops(_, _, _, _, _) => StopStep(c, s, ev, s')
  }

  ghost predicate Initial(c: Config, s: Sys) {
    exists p :: Newborn(p)
      && s == Sys(map[c.child := ResumedIn(c.mode, p, None)], map[c.child := BLANK.(configured := true)], map[], 0)
  }

  ghost predicate IsRun(c: Config, ss: seq<Sys>, evs: seq<Event>) {
    && |ss| == |evs| + 1
    && Initial(c, ss[0])
    && forall i :: 0 <= i < |evs| ==> Happens(c, ss[i], evs[i], ss[i + 1])
  }
}
