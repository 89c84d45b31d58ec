/** The calls a sequence is made of, the state of one in flight, and how a stop moves it. */
module Sequences {
  import opened Options
  import opened TraceeMemory
  import opened Words
  import opened PtraceKernel

  const SYS_WRITE: U64 := 1
  const SYS_CLOSE: U64 := 3
  const SYS_LSEEK: U64 := 8
  const SYS_READV: U64 := 19
  const SYS_WRITEV: U64 := 20
  const SYS_PIPE: U64 := 22
  const SYS_GETPID: U64 := 39
  const SYS_SOCKET: U64 := 41
  const SYS_CONNECT: U64 := 42
  const SYS_BIND: U64 := 49
  const SYS_FCNTL: U64 := 72

  const F_DUPFD: U64 := 0
  const F_SETFD: U64 := 2
  const F_SETFL: U64 := 4
  const FD_CLOEXEC: U64 := 1
  const O_NONBLOCK: U64 := 0x800

  const EIO: int := 5
  const EINVAL: int := 22

  /** The fd that goes into a call's arguments: a first result, or an end of a pipe. */
  datatype Which = Result | ReadEnd | WriteEnd

  /** A planned call. Fds that only an earlier one can tell are named by a Which. */
  datatype Step =
    | Socket
    | Pipe(buffer: U64)
    | Attach(fd: Which, addr: U64, length: U64, connect: bool)
    | Nonblock(fd: Which)
    | WriteInitial(fd: Which, buffer: U64)
    | Close(fd: Which)
    | FcntlDupfd(dupFd: U64, minimum: U64)
    | FcntlCloexec(fd: Which)
    | Lseek(seekFd: U64, offset: I64)
    | VectorIo(write: bool, ioFd: U64, iov: U64, count: U64)
    | Sigprocmask(mask: U64, saveAt: U64, always: bool)
    | EpollWait(epfd: U64, events: U64, maxevents: U64, timeout: U64)

  /** Where the answer is taken from: the i-th result, or the fd that was adopted. */
  datatype Outcome = Call(i: nat) | Adopted

  datatype Active =
    | Sequence(saved: Regs, gadget: U64, queue: seq<Step>, running: Option<Step>, atEntry: bool,
               results: seq<I64>, outcome: Outcome, fd: I64, readEnd: I64, writeEnd: I64, clockid: int)
    | Fixup(result: I64)

  /** A call's number and its six arguments. */
  datatype Request6 = Request6(nr: U64, a: U64, b: U64, c: U64, d: U64, e: U64, f: U64)

  /** A planned call as number and arguments, once the fds are known. */
  function Build(step: Step, fd: I64, readEnd: I64, writeEnd: I64): Request6 {
    match step
    case Socket => Request6(SYS_SOCKET, 1, 2, 0, 0, 0, 0)
    case Pipe(buffer) => Request6(SYS_PIPE, buffer, 0, 0, 0, 0, 0)
    case Attach(which, addr, length, connect) =>
      Request6(if connect then SYS_CONNECT else SYS_BIND, FdOf(which, fd, readEnd, writeEnd), addr, length, 0, 0, 0)
    case Nonblock(which) => Request6(SYS_FCNTL, FdOf(which, fd, readEnd, writeEnd), F_SETFL, O_NONBLOCK, 0, 0, 0)
    case WriteInitial(which, buffer) => Request6(SYS_WRITE, FdOf(which, fd, readEnd, writeEnd), buffer, 8, 0, 0, 0)
    case Close(which) => Request6(SYS_CLOSE, FdOf(which, fd, readEnd, writeEnd), 0, 0, 0, 0, 0)
    case FcntlDupfd(dupFd, minimum) => Request6(SYS_FCNTL, dupFd, F_DUPFD, minimum, 0, 0, 0)
    case FcntlCloexec(which) => Request6(SYS_FCNTL, FdOf(which, fd, readEnd, writeEnd), F_SETFD, FD_CLOEXEC, 0, 0, 0)
    case Lseek(seekFd, offset) => Request6(SYS_LSEEK, seekFd, Unsigned(offset), 0, 0, 0, 0)
    case VectorIo(write, ioFd, iov, count) =>
      Request6(if write then SYS_WRITEV else SYS_READV, ioFd, iov, count, 0, 0, 0)
    case Sigprocmask(mask, saveAt, _) => Request6(SYS_RT_SIGPROCMASK, SIG_SETMASK, mask, saveAt, 8, 0, 0)
    case EpollWait(epfd, events, maxevents, timeout) => Request6(SYS_EPOLL_WAIT, epfd, events, maxevents, timeout, 0, 0)
  }

  function FdOf(which: Which, fd: I64, readEnd: I64, writeEnd: I64): U64 {
    match which
    case Result => Unsigned(fd)
    case ReadEnd => Unsigned(readEnd)
    case WriteEnd => Unsigned(writeEnd)
  }

  /** Registers set up to make a call. */
  function Patched(regs: Regs, call: Request6): Regs {
    regs.(origRax := call.nr, rax := call.nr, rdi := call.a, rsi := call.b, rdx := call.c,
          r10 := call.d, r8 := call.e, r9 := call.f)
  }

  /** The first error among the results. */
  function FirstError(results: seq<I64>): Option<I64> {
    if results == [] then None
    else if IsError(results[0]) then Some(results[0])
    else FirstError(results[1..])
  }

  lemma {:induction false} FirstErrorMeaning(results: seq<I64>)
    ensures FirstError(results).None? <==> forall rc <- results :: !IsError(rc)
    ensures FirstError(results).Some? ==>
              exists i :: 0 <= i < |results| && results[i] == FirstError(results).value && IsError(results[i])
                          && forall j :: 0 <= j < i ==> !IsError(results[j])
  {
    if results != [] && !IsError(results[0]) {
      FirstErrorMeaning(results[1..]);
      if FirstError(results).Some? {
        var i :| 0 <= i < |results[1..]| && results[1..][i] == FirstError(results).value && IsError(results[1..][i])
                 && forall j :: 0 <= j < i ==> !IsError(results[1..][j]);
        assert forall j :: 0 < j < i + 1 ==> results[j] == results[1..][j - 1];
        assert results[i + 1] == FirstError(results).value;
      }
    }
  }

  predicate IsAlways(step: Step) { step.Sigprocmask? && step.always }

  /** The queue without the steps before its first `always` one. */
  function SkipToCleanup(queue: seq<Step>): (r: seq<Step>)
    ensures |r| <= |queue| && (r != [] ==> IsAlways(r[0]))
  {
    if queue == [] || IsAlways(queue[0]) then queue else SkipToCleanup(queue[1..])
  }

  predicate AllSucceeded(results: seq<I64>) { forall rc <- results :: rc >= 0 }

  lemma SucceededAppend(results: seq<I64>, rc: I64)
    ensures AllSucceeded(results + [rc]) <==> AllSucceeded(results) && rc >= 0
  {
    assert rc in results + [rc];
    assert forall r <- results :: r in results + [rc];
  }

  /** The queue as the next step is taken from it: all of it while nothing failed; after a
      failure only a cleanup that has something to take back. */
  function Remaining(queue: seq<Step>, results: seq<I64>): (r: seq<Step>)
    ensures |r| <= |queue|
  {
    if FirstError(results).None? then queue
    else if |results| > 1 && AllSucceeded(results[..|results| - 1]) then SkipToCleanup(queue)
    else []
  }

  /** The first call of a sequence. The fds are not known yet. */
  function Started(regs: Regs, gadget: U64, queue: seq<Step>, outcome: Outcome, clockid: int): Active
    requires queue != []
  {
    Sequence(regs, gadget, queue[1..], Some(queue[0]), false, [], outcome, -1, -1, -1, clockid)
  }

  function StartedRegs(regs: Regs, queue: seq<Step>): Regs
    requires queue != []
  {
    Patched(regs, Build(queue[0], -1, -1, -1))
  }

  /** The fds of a new pipe, as the kernel stored them at `buffer`. */
  function PipeFds(mem: Memory, buffer: U64): Option<(int, int)> {
    match ReadSpec(mem, buffer, 8)
    case None => None
    case Some(raw) => Some((ReadI32(raw[0..4]), ReadI32(raw[4..8])))
  }

  /** capture_pipe: the fds, when they can be read and the write end can be reopened. */
  function Captured(mem: Memory, buffer: U64, reopened: bool): Option<(I64, I64)> {
    match PipeFds(mem, buffer)
    case None => None
    case Some((r, w)) => if reopened then FitsI64(mem, buffer); Some((r, w)) else None
  }

  lemma FitsI64(mem: Memory, buffer: U64)
    requires PipeFds(mem, buffer).Some?
    ensures var (r, w) := PipeFds(mem, buffer).value; -0x8000_0000 <= r < 0x8000_0000 && -0x8000_0000 <= w < 0x8000_0000
  {
    var raw := ReadSpec(mem, buffer, 8).value;
    FromBytesBounded(raw[0..4]);
    FromBytesBounded(raw[4..8]);
    assert Power256(2) == 65536;
    assert Power256(4) == 65536 * Power256(2);
  }

  /** Take in what the running call returned. */
  function Collected(active: Active, rax: I64, captured: Option<(I64, I64)>): Active
    requires active.Sequence?
  {
    var results := active.results + [rax];
    var running := active.running;
    var first := |results| == 1 && running.Some? && (running.value.Socket? || running.value.FcntlDupfd?);
    var a := active.(results := results, running := None, fd := if first then rax else active.fd);
    if running.Some? && running.value.Pipe? then
      match captured
      case Some((r, w)) => a.(fd := r, readEnd := r, writeEnd := w)
      case None => a.(results := a.results + [-EIO])
    else a
  }

  /** The value handed to the application. */
  function Answer(active: Active): I64
    requires active.Sequence?
  {
    var value := match active.outcome
      case Call(i) => if i < |active.results| then active.results[i] else -EINVAL
      case Adopted => active.fd;
    if value >= 0 then value
    else match FirstError(active.results)
      case Some(error) => error
      case None => value
  }

  /** The pipe the running call may just have made. */
  function PipeCapture(active: Active, mem: Memory, reopened: bool): Option<(I64, I64)> {
    if active.Sequence? && !active.atEntry && active.running.Some? && active.running.value.Pipe?
    then Captured(mem, active.running.value.buffer, reopened)
    else None
  }

  datatype Moved = Moved(active: Option<Active>, regs: Regs)

  /** After a call's result was taken in: the next call, or the end. */
  function Next(a: Active, regs: Regs): Moved
    requires a.Sequence?
  {
    var left := Remaining(a.queue, a.results);
    if left != [] then
      var call := Build(left[0], a.fd, a.readEnd, a.writeEnd);
      Moved(Some(a.(queue := left[1..], running := Some(left[0]), atEntry := true)),
            Patched(regs, call).(rip := a.gadget))
    else Moved(None, a.saved.(rax := Unsigned(Answer(a))))
  }

  /** What one stop makes of an emulation in flight. */
  function Advance(active: Active, regs: Regs, captured: Option<(I64, I64)>): Moved {
    match active
    case Fixup(result) => Moved(None, regs.(rax := Unsigned(result)))
    case Sequence(_, _, _, _, atEntry, _, _, _, _, _, _) =>
      if atEntry then Moved(Some(active.(atEntry := false)), regs)
      else Next(Collected(active, Signed(regs.rax), captured), regs)
  }

  /** Stops still to come when nothing fails, counting both ends of each call. */
  function StopsLeft(active: Active): nat {
    match active
    case Fixup(_) => 1
    case Sequence(_, _, queue, _, atEntry, _, _, _, _, _, _) => 2 * |queue| + (if atEntry then 2 else 1)
  }

  /** Every stop brings a sequence nearer its end, by exactly one while nothing fails. */
  lemma AdvanceProgress(active: Active, regs: Regs, captured: Option<(I64, I64)>)
    ensures var m := Advance(active, regs, captured);
            && (m.active.Some? ==> StopsLeft(m.active.value) < StopsLeft(active))
            && (m.active.Some? && active.Sequence? && FirstError(m.active.value.results).None? ==>
                  StopsLeft(m.active.value) == StopsLeft(active) - 1)
            && var done := if active.Sequence? then Collected(active, Signed(regs.rax), captured) else active;
            && (m.active.None? && done.Sequence? && FirstError(done.results).None? ==> StopsLeft(active) == 1)
  {
  }

  /** The rule for the answer, spelled out: the outcome when there is one, and otherwise the
      first error of the sequence when there is one. */
  lemma AnswerRule(active: Active)
    requires active.Sequence?
    ensures var value := match active.outcome
              case Call(i) => if i < |active.results| then active.results[i] else -EINVAL
              case Adopted => active.fd;
            && (value >= 0 ==> Answer(active) == value)
            && (value < 0 && FirstError(active.results).None? ==> Answer(active) == value)
            && (value < 0 ==> Answer(active) < 0)
            && (value < 0 && FirstError(active.results).Some? ==> Answer(active) == FirstError(active.results).value)
  {
    FirstErrorMeaning(active.results);
  }

  lemma FirstErrorAppend(results: seq<I64>, rc: I64)
    ensures FirstError(results).Some? ==> FirstError(results + [rc]) == FirstError(results)
    ensures FirstError(results).None? ==> FirstError(results + [rc]) == if IsError(rc) then Some(rc) else None
  {
    if results == [] {
      assert results + [rc] == [rc];
      assert FirstError([]) == None;
    } else {
      assert (results + [rc])[1..] == results[1..] + [rc];
      FirstErrorAppend(results[1..], rc);
    }
  }

  /** The results before the ones just taken in are among all but the last. */
  lemma EarlierResults(active: Active, rax: I64, captured: Option<(I64, I64)>, rc: I64)
    requires active.Sequence? && rc in active.results
    ensures var results := Collected(active, rax, captured).results;
            results != [] && rc in results && rc in results[..|results| - 1]
  {
    var results := Collected(active, rax, captured).results;
    var i :| 0 <= i < |active.results| && active.results[i] == rc;
    assert results[i] == rc && results[..|results| - 1][i] == rc;
  }

  /** After a failure at most one more call is made: a cleanup is the last call of its
      sequence ... */
  lemma CleanupIsLast(active: Active, regs: Regs, captured: Option<(I64, I64)>)
    requires active.Sequence? && !active.atEntry && FirstError(active.results).Some?
    ensures Advance(active, regs, captured).active.None?
  {
    FirstErrorMeaning(active.results);
    var rc :| rc in active.results && IsError(rc);
    EarlierResults(active, Signed(regs.rax), captured, rc);
    FirstErrorMeaning(Collected(active, Signed(regs.rax), captured).results);
  }

  /** ... and there is one only if the failed call was the first to fail. */
  lemma FailureLeavesCleanup(active: Active, regs: Regs, captured: Option<(I64, I64)>)
    requires active.Sequence? && !active.atEntry
    requires FirstError(Collected(active, Signed(regs.rax), captured).results).Some?
    ensures var m := Advance(active, regs, captured);
            m.active.Some? ==> m.active.value.running.Some? && IsAlways(m.active.value.running.value)
                               && AllSucceeded(active.results)
  {
    var results := Collected(active, Signed(regs.rax), captured).results;
    if Advance(active, regs, captured).active.Some? {
      assert AllSucceeded(results[..|results| - 1]);
      forall rc | rc in active.results ensures rc >= 0 {
        EarlierResults(active, Signed(regs.rax), captured, rc);
      }
    }
  }
}
