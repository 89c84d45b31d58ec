/** The start of an emulation: for every call a kernel may lack, a run in which the child makes it
    as its first, and the tracer's first call in its place succeeds. */
module FirstSequence {
  import opened Options
  import opened TraceeMemory
  import opened Words
  import opened PtraceKernel
  import opened Sequences
  import opened Takeover
  import opened Supervision
  import opened StopShapes
  import opened Protocol
  import R = Runs

  const NO_FILL := Filled(false, map[])

  /** A sequence is about to make its next call. */
  predicate Waits(v: View) {
    v.active.Some? && v.active.value.Sequence? && v.active.value.atEntry && v.active.value.running.Some?
  }

  /** This kernel lacks this call, and others are made in its place. */
  predicate Lacks(env: Env, nr: U64) {
    || (nr == SYS_PREADV && env.before2_6_30)
    || (nr == SYS_FCNTL && env.before2_6_24)
    || (nr == SYS_EPOLL_PWAIT && env.before2_6_19)
    || (nr == SYS_TIMERFD_CREATE && env.timerfdMissing)
    || (nr == SYS_EVENTFD && env.eventfdMissing)
  }

  /** A tracee about to make it, with an instruction of two bytes to make it with. */
  function Caller(nr: U64): Regs {
    Regs(nr, 0, 0, F_DUPFD_CLOEXEC, 0, 0, 0, 0, 512, if nr == SYS_EPOLL_PWAIT then 512 else 1536, CS_64, 0)
  }

  function Content(a: Address, first: Byte, second: Byte): Byte {
    if a == 512 then first else if a == 513 then second else 0
  }

  function Room(pid: Pid, first: Byte, second: Byte): Memory {
    map a | 0 <= a < 2048 + |SocketAddress(pid, 0)| :: Content(a, first, second)
  }

  const REOPENS := R.NOTHING.(reopened := true)

  /** Of the two instructions that enter the kernel. */
  predicate Enters(first: Byte, second: Byte) { (first, second) in {(0x0f, 0x05), (0xcd, 0x80)} }

  function Entering(nr: U64): Regs { Caller(nr).(origRax := nr, rip := 514) }

  lemma RoomIsEnough(pid: Pid, first: Byte, second: Byte)
    ensures var mem := Room(pid, first, second);
            && Mapped(mem, 0, 1024) && WordsMapped(mem, 1024, |SocketAddress(pid, 0)|)
            && ReadSpec(mem, 1024, 8).Some? && TwoBytes(mem, 512, first, second)
  {
    hide SocketAddress;
    WordsCover(|SocketAddress(pid, 0)|);
    assert WordCount(8) == 1;
  }

  lemma GadgetFound(pid: Pid, first: Byte, second: Byte, regs: Regs)
    requires Enters(first, second) && regs.rip == 514
    ensures GadgetFor(Room(pid, first, second), regs) == Some(512)
  {
    hide Room;
    RoomIsEnough(pid, first, second);
    assert Mapped(Room(pid, first, second), 512, 8);
  }

  /** A call that succeeds without a change to memory, except that a pipe's ends are there. */
  predicate Succeeds(step: Step) {
    match step
    case Sigprocmask(mask, saveAt, _) => mask == 0 && saveAt == 0
    case Pipe(buffer) => buffer == 1024
    case EpollWait(_, _, _, _) => false
    case _ => true
  }

  /** A sequence that has just been started in this memory. */
  ghost predicate JustBegun(a: Active, mem: Memory, first: Byte, second: Byte) {
    && a.Sequence? && !a.atEntry && a.results == [] && a.queue != [] && a.gadget == 512
    && a.running.Some? && Succeeds(a.running.value)
    && TwoBytes(mem, 512, first, second) && ReadSpec(mem, 1024, 8).Some?
  }

  lemma BuffersAreBeside(pid: Pid, first: Byte, second: Byte, regs: Regs)
    requires regs.rsp == 1536 && regs.rdi == 0
    ensures var (ok, mem) := EventfdBuffers(pid, 0, regs, Room(pid, first, second));
            ok && TwoBytes(mem, 512, first, second) && ReadSpec(mem, 1024, 8).Some?
  {
    var mem := Room(pid, first, second);
    RoomIsEnough(pid, first, second);
    hide Room;
    hide SocketAddress;
    assert Scratch(1536) == 1024;
    assert forall a :: a in mem <==> a in Overwrite(mem, 1024, SocketAddress(pid, 0));
  }

  /** What is taken over: a sequence of at least two calls, and memory beside the instruction
      as it was. */
  ghost predicate Takes(env: Env, nr: U64, pid: Pid, first: Byte, second: Byte) {
    var b := Begin(env, pid, 0, Entering(nr), Room(pid, first, second), true, REOPENS);
    && b.active.Some? && JustBegun(b.active.value, b.mem, first, second)
    && (nr == SYS_TIMERFD_CREATE ==> b.active.value.running == Some(Pipe(1024)))
  }

  lemma EventfdIsTaken(env: Env, pid: Pid, first: Byte, second: Byte)
    requires env.eventfdMissing && Enters(first, second)
    ensures Takes(env, SYS_EVENTFD, pid, first, second)
  {
    BuffersAreBeside(pid, first, second, Entering(SYS_EVENTFD));
    GadgetFound(pid, first, second, Entering(SYS_EVENTFD));
    hide Room;
    hide GadgetFor;
    hide SocketAddress;
    hide EventfdBuffers;
    hide ReadSpec;
    hide TwoBytes;
  }

  lemma TimerfdIsTaken(env: Env, pid: Pid, first: Byte, second: Byte)
    requires env.timerfdMissing && Enters(first, second)
    ensures Takes(env, SYS_TIMERFD_CREATE, pid, first, second)
  {
    RoomIsEnough(pid, first, second);
    GadgetFound(pid, first, second, Entering(SYS_TIMERFD_CREATE));
    hide Room;
    hide GadgetFor;
    hide ReadSpec;
    hide TwoBytes;
    hide ReplacedClock;
    hide AsI32;
    hide Bit;
    assert Scratch(1536) == 1024;
  }

  lemma EpollIsTaken(env: Env, pid: Pid, first: Byte, second: Byte)
    requires env.before2_6_19 && Enters(first, second)
    ensures Takes(env, SYS_EPOLL_PWAIT, pid, first, second)
  {
    RoomIsEnough(pid, first, second);
    GadgetFound(pid, first, second, Entering(SYS_EPOLL_PWAIT));
    hide Room;
    hide GadgetFor;
    hide ReadSpec;
    hide TwoBytes;
    assert Scratch(512) == 0;
  }

  lemma TransferIsTaken(env: Env, nr: U64, pid: Pid, first: Byte, second: Byte)
    requires Lacks(env, nr) && nr in {SYS_PREADV, SYS_FCNTL} && Enters(first, second)
    ensures Takes(env, nr, pid, first, second)
  {
    RoomIsEnough(pid, first, second);
    GadgetFound(pid, first, second, Entering(nr));
    hide Room;
    hide GadgetFor;
    hide ReadSpec;
    hide TwoBytes;
  }

  lemma CallIsTaken(env: Env, nr: U64, pid: Pid, first: Byte, second: Byte)
    requires Lacks(env, nr) && Enters(first, second)
    ensures Takes(env, nr, pid, first, second)
  {
    hide Takes;
    if nr == SYS_EVENTFD {
      EventfdIsTaken(env, pid, first, second);
    } else if nr == SYS_TIMERFD_CREATE {
      TimerfdIsTaken(env, pid, first, second);
    } else if nr == SYS_EPOLL_PWAIT {
      EpollIsTaken(env, pid, first, second);
    } else {
      TransferIsTaken(env, nr, pid, first, second);
    }
  }

  /** The child at that call's entry, before the tracer handles it. */
  function FirstEntry(pid: Pid, nr: U64, first: Byte, second: Byte): Proc {
    Proc(Entering(nr), Room(pid, first, second), [0, 0, 0, 0, 0, 0, 0, 0], Exit, false, SyscallTrace, None)
  }

  /** The first call of the sequence succeeds. */
  function Succeeded(p: Proc): Proc { p.(next := Entry, regs := p.regs.(rax := 0)) }

  const CHILD_VIEW := BLANK.(configured := true)

  /** The child is alone, and this is the instruction its emulation calls by. */
  ghost predicate CallsBy(c: Config, s: Sys, first: Byte, second: Byte) {
    && s.procs.Keys == {c.child} && s.views.Keys == {c.child}
    && TwoBytes(s.procs[c.child].mem, 512, first, second)
    && (ViewIn(s, c.child).active.Some? && ViewIn(s, c.child).active.value.Sequence? ==>
          ViewIn(s, c.child).active.value.gadget == 512)
  }

  /** A tracee in the first call of a sequence. */
  ghost predicate InFirstCall(v: View, p: Proc, first: Byte, second: Byte) {
    && v.active.Some? && Makes(p.regs, v.active.value) && JustBegun(v.active.value, p.mem, first, second)
    && p.resumed == SyscallTrace && p.next == Exit && p.injected.None? && !p.filtered && Installable(p.mask)
  }

  lemma HandledAsBegun(c: Config, q: Proc)
    requires c.mode == EverySyscall
    ensures var b := Begin(c.env, c.child, 0, q.regs, q.mem, true, REOPENS);
            b.active.Some? ==>
              Handle(c, c.child, CHILD_VIEW, q, SyscallStop, 0, REOPENS, NO_FILL)
                == After(CHILD_VIEW.(active := b.active),
                         Resumed(q.(regs := b.regs, mem := b.mem), SyscallTrace, None), b.sequence)
  {
    hide Begin;
    hide OnSyscallStop;
  }

  lemma CallIsMade(c: Config, nr: U64, first: Byte, second: Byte)
    requires Takes(c.env, nr, c.child, first, second)
    ensures var b := Begin(c.env, c.child, 0, Entering(nr), Room(c.child, first, second), true, REOPENS);
            b.active.Some? && Makes(b.regs, b.active.value)
  {
    var mem := Room(c.child, first, second);
    BeginShape(c.env, c.child, 0, Entering(nr), mem, true, REOPENS);
    hide Begin;
    hide Room;
    var b := Begin(c.env, c.child, 0, Entering(nr), mem, true, REOPENS);
    FreshMakes(b.active.value, Entering(nr), b.regs);
  }

  lemma EntryIsTaken(c: Config, nr: U64, first: Byte, second: Byte)
    requires c.mode == EverySyscall && Lacks(c.env, nr) && Enters(first, second)
    ensures var q := FirstEntry(c.child, nr, first, second);
            var after := Handle(c, c.child, CHILD_VIEW, q, SyscallStop, 0, REOPENS, NO_FILL);
            && InFirstCall(after.view, after.proc, first, second)
            && (nr == SYS_TIMERFD_CREATE ==> after.view.active.value.running == Some(Pipe(1024)))
  {
    CallIsTaken(c.env, nr, c.child, first, second);
    CallIsMade(c, nr, first, second);
    HandledAsBegun(c, FirstEntry(c.child, nr, first, second));
    hide Handle;
    hide Begin;
    hide Room;
    hide Makes;
    hide TwoBytes;
    hide ReadSpec;
    hide Succeeds;
  }

  lemma FreshMakes(a: Active, regs: Regs, after: Regs)
    requires Fresh(a, regs, after) && a.Sequence?
    ensures Makes(after, a)
  {
  }

  /** The start of the run, and its first event. */
  function Start(c: Config, nr: U64, first: Byte, second: Byte): Sys {
    var p := Proc(Caller(nr), Room(c.child, first, second), [0, 0, 0, 0, 0, 0, 0, 0], Entry, false, SyscallTrace, None);
    Sys(map[c.child := p], map[c.child := CHILD_VIEW], map[], 0)
  }

  function FirstEvent(c: Config, nr: U64, first: Byte, second: Byte): Event {
    Stops(c.child, SyscallStop, FirstEntry(c.child, nr, first, second), REOPENS, NO_FILL)
  }

  lemma StartIsInitial(c: Config, nr: U64, first: Byte, second: Byte)
    requires c.mode == EverySyscall
    ensures Initial(c, Start(c, nr, first, second)) && CallsBy(c, Start(c, nr, first, second), first, second)
    ensures ViewIn(Start(c, nr, first, second), c.child) == CHILD_VIEW
  {
    var s := Start(c, nr, first, second);
    RoomIsEnough(c.child, first, second);
    hide Room;
    hide TwoBytes;
    var p := s.procs[c.child].(resumed := Unresumed);
    assert Newborn(p) && ResumedIn(c.mode, p, None) == s.procs[c.child];
  }

  /** The call's entry is a possible first stop, and starts a sequence. */
  lemma SequenceStarts(c: Config, nr: U64, first: Byte, second: Byte) returns (s: Sys)
    requires c.mode == EverySyscall && Lacks(c.env, nr) && Enters(first, second)
    ensures Happens(c, Start(c, nr, first, second), FirstEvent(c, nr, first, second), s)
    ensures CallsBy(c, s, first, second)
    ensures InFirstCall(ViewIn(s, c.child), s.procs[c.child], first, second)
    ensures nr == SYS_TIMERFD_CREATE ==> ViewIn(s, c.child).active.value.running == Some(Pipe(1024))
  {
    var m := MomentOf(c, Start(c, nr, first, second), FirstEvent(c, nr, first, second));
    EntryIsTaken(c, nr, first, second);
    StillThere(AfterStop(m).view, AfterStop(m).proc, first, second);
    EntryPossible(c.order, m.p, m.q);
    hide Handle;
    hide RunsTo;
    hide InFirstCall;
    hide Room;
    hide SeenAfter;
    hide ReadSpec;
    hide TwoBytes;
    s := SysAfter(Start(c, nr, first, second), m);
  }

  lemma StillThere(v: View, p: Proc, first: Byte, second: Byte)
    requires InFirstCall(v, p, first, second)
    ensures v.active.Some? && v.active.value.Sequence? && v.active.value.gadget == 512
    ensures TwoBytes(p.mem, 512, first, second)
  {
    hide Makes;
    hide TwoBytes;
  }

  lemma EntryPossible(order: StopOrder, p: Proc, q: Proc)
    requires q == p.(regs := p.regs.(origRax := p.regs.rax, rip := 514), next := Exit)
    requires p.next == Entry && !p.filtered && p.resumed == SyscallTrace && p.regs.rip == 512 && Installable(p.mask)
    ensures RunsTo(order, p, SyscallStop, q)
  {
  }

  /** Its first call may succeed, and then it is about to make the next. */
  lemma FirstCallSucceeds(order: StopOrder, v: View, p: Proc, first: Byte, second: Byte)
    requires InFirstCall(v, p, first, second)
    ensures RunsTo(order, p, SyscallStop, Succeeded(p))
  {
  }

  lemma SecondCallIsNext(c: Config, v: View, p: Proc, n: nat, first: Byte, second: Byte)
    requires c.mode == EverySyscall && InFirstCall(v, p, first, second)
    ensures var after := Handle(c, c.child, v, Succeeded(p), SyscallStop, n, REOPENS, NO_FILL);
            && Waits(after.view) && after.view.active.value.gadget == 512 && after.proc.mem == p.mem
            && Makes(after.proc.regs, after.view.active.value) && after.proc.injected.None?
  {
    hide ReadSpec;
    hide Build;
    var a := v.active.value;
    assert a.results + [0] == [0] && [0][1..] == [];
  }
}
