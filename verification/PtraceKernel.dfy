/** Machine words: 64-bit values, their signed reading, and their bytes. */
module Words {
  import opened TraceeMemory

  const TWO63: int := 0x8000_0000_0000_0000
  const TWO64: int := 0x1_0000_0000_0000_0000

  type U64 = x: int | 0 <= x < TWO64
  type I64 = x: int | -TWO63 <= x < TWO63

  /** `as i64` */
  function Signed(x: U64): I64 { if x < TWO63 then x else x - TWO64 }

  /** `as u64` */
  function Unsigned(x: I64): U64 { if x < 0 then x + TWO64 else x }

  lemma SignedUnsigned(x: I64, y: U64)
    ensures Signed(Unsigned(x)) == x && Unsigned(Signed(y)) == y
  {
  }

  /** wrapping_sub */
  function WrappingSub(x: U64, d: U64): U64 { if x >= d then x - d else x - d + TWO64 }

  /** Space for the tracer's own data: 512 bytes below the stack pointer, 16-aligned. */
  function Scratch(rsp: U64): U64 {
    var below := WrappingSub(rsp, 512);
    below - below % 16
  }

  /** The n low bytes of a value, least significant first. */
  function ToBytes(x: nat, n: nat): (r: seq<Byte>)
    ensures |r| == n
  {
    if n == 0 then [] else [x % 256] + ToBytes(x / 256, n - 1)
  }

  function FromBytes(bytes: seq<Byte>): nat {
    if bytes == [] then 0 else bytes[0] + 256 * FromBytes(bytes[1..])
  }

  function Power256(n: nat): nat { if n == 0 then 1 else 256 * Power256(n - 1) }

  lemma {:induction false} BytesRoundTrip(x: nat, n: nat)
    requires x < Power256(n)
    ensures FromBytes(ToBytes(x, n)) == x
  {
    if n > 0 {
      BytesRoundTrip(x / 256, n - 1);
      assert ToBytes(x, n)[1..] == ToBytes(x / 256, n - 1);
    }
  }

  lemma {:induction false} FromBytesBounded(bytes: seq<Byte>)
    ensures FromBytes(bytes) < Power256(|bytes|)
  {
    if bytes != [] {
      FromBytesBounded(bytes[1..]);
    }
  }

  function ReadU64(bytes: seq<Byte>): U64
    requires |bytes| == 8
  {
    FromBytesBounded(bytes);
    assert Power256(8) == TWO64 by { Power256Of8(); }
    FromBytes(bytes)
  }

  function ReadI64(bytes: seq<Byte>): I64
    requires |bytes| == 8
  {
    Signed(ReadU64(bytes))
  }

  /** A 32-bit signed value, as `i32::from_ne_bytes` gives it. */
  function ReadI32(bytes: seq<Byte>): int
    requires |bytes| == 4
  {
    var u := FromBytes(bytes);
    if u < 0x8000_0000 then u else u - 0x1_0000_0000
  }

  lemma Power256Of8()
    ensures Power256(8) == TWO64
  {
    assert Power256(2) == 65536;
    assert Power256(4) == 65536 * Power256(2);
    assert Power256(6) == 65536 * Power256(4);
    assert Power256(8) == 65536 * Power256(6);
  }

  lemma I64RoundTrip(x: I64)
    ensures ReadI64(ToBytes(Unsigned(x), 8)) == x
  {
    Power256Of8();
    BytesRoundTrip(Unsigned(x), 8);
  }
}

/** What ptrace shows and changes of a tracee, and how the kernel moves one from a resume to
    its next stop. */
module PtraceKernel {
  import opened Options
  import opened TraceeMemory
  import opened Words

  type Pid = nat

  /** `user_regs_struct`; the registers nothing here names are kept as one. */
  datatype Regs = Regs(rax: U64, origRax: U64, rdi: U64, rsi: U64, rdx: U64, r10: U64, r8: U64, r9: U64,
                       rip: U64, rsp: U64, cs: U64, rest: int)

  const CS_64: U64 := 0x33

  const SYS_RT_SIGPROCMASK: U64 := 14
  const SYS_RT_SIGRETURN: U64 := 15
  const SYS_CLONE: U64 := 56
  const SYS_FORK: U64 := 57
  const SYS_VFORK: U64 := 58
  const SYS_EXECVE: U64 := 59
  const SYS_EPOLL_WAIT: U64 := 232
  const SYS_EXECVEAT: U64 := 322
  const SYS_CLONE3: U64 := 435

  /** Which way round the next syscall stop is, when there is one. */
  datatype Side = Entry | Exit

  /** How the tracee was last resumed. A new child has not been yet. */
  datatype Request = Unresumed | SyscallTrace | Cont

  /** The eight bytes of a signal mask. */
  type SigMask = m: seq<Byte> | |m| == 8 witness [0, 0, 0, 0, 0, 0, 0, 0]

  /** When the entry stop of a filtered call comes: after the filter's stop on kernels before
      4.8, and before it since. */
  datatype StopOrder = EntryAfterFilter | EntryBeforeFilter

  /** A tracee as the kernel has it. `filtered` holds from a seccomp stop to the next syscall
      stop of the same call; `injected` is the signal the last resume delivered. */
  datatype Proc = Proc(regs: Regs, mem: Memory, mask: SigMask, next: Side, filtered: bool,
                       resumed: Request, injected: Option<int>)

  datatype Stop = SyscallStop | SignalStop(sig: int) | EventStop | SeccompStop

  predicate TwoBytes(mem: Memory, at: Address, first: Byte, second: Byte) {
    at in mem && at + 1 in mem && mem[at] == first && mem[at + 1] == second
  }

  /** A `syscall` instruction. */
  predicate AtSyscall(mem: Memory, at: Address) { TwoBytes(mem, at, 0x0f, 0x05) }

  /** `int 0x80`, which enters the kernel by the 32-bit table, with other argument
      registers. */
  predicate AtInterrupt(mem: Memory, at: Address) { TwoBytes(mem, at, 0xcd, 0x80) }

  const SIGILL: int := 4
  const SIGTRAP: int := 5
  const SIGSTOP: int := 19

  /** No handler runs first: SIGSTOP cannot have one. */
  predicate NoHandler(injected: Option<int>) { injected in {None, Some(SIGSTOP)} }

  /** Left alone, the tracee makes the call in its registers before it runs anything else. */
  predicate EntersAsIs(p: Proc) {
    p.filtered || (NoHandler(p.injected) && AtSyscall(p.mem, p.regs.rip))
  }

  /** The registers at the entry stop of such a call. */
  ghost predicate EntryRegs(p: Proc, regs: Regs) {
    if p.filtered then regs == p.regs.(rest := regs.rest)
    else regs == p.regs.(origRax := p.regs.rax, rip := (p.regs.rip + 2) % TWO64, rest := regs.rest)
  }

  /** Calls that come back with other registers than they went in with. */
  predicate ReplacesRegs(nr: U64) {
    nr in {SYS_EXECVE, SYS_EXECVEAT, SYS_RT_SIGRETURN}
  }

  /** SIGKILL and SIGSTOP cannot be blocked: bits 8 and 18 of the mask. */
  function Installed(m: SigMask): (r: SigMask)
    ensures Installable(r)
  {
    m[1 := m[1] - m[1] % 2][2 := m[2] - m[2] / 4 % 2 * 4]
  }

  predicate Installable(m: SigMask) { m[1] % 2 == 0 && m[2] / 4 % 2 == 0 }

  lemma InstalledAsIs(m: SigMask)
    requires Installable(m)
    ensures Installed(m) == m
  {
    assert m[1 := m[1]][2 := m[2]] == m;
  }

  /** An error as a call returns it. */
  predicate IsError(rc: int) { -4095 <= rc < 0 }

  const SIG_SETMASK: U64 := 2

  /** rt_sigprocmask(how, set, oldset, size): a failure changes nothing, and a size other than a
      mask's is one. Otherwise the old mask is stored when asked for, and a set that was given
      takes its place when that is what was asked; what the other ways make of it is open. */
  ghost predicate SigprocmaskDone(p: Proc, q: Proc) {
    if Signed(q.regs.rax) < 0 || p.regs.r10 != 8 then
      IsError(Signed(q.regs.rax)) && q.mem == p.mem && q.mask == p.mask
    else
      && (if p.regs.rsi == 0 then q.mask == p.mask
          else Mapped(p.mem, p.regs.rsi, 8)
               && (p.regs.rdi == SIG_SETMASK ==> q.mask == Installed(Bytes(p.mem, p.regs.rsi, 8))))
      && (if p.regs.rdx == 0 then q.mem == p.mem
          else Mapped(p.mem, p.regs.rdx, 8) && q.mem == Overwrite(p.mem, p.regs.rdx, p.mask))
  }

  /** epoll_wait(epfd, events, maxevents, timeout) stores 12-byte events and leaves the mask
      alone. */
  ghost predicate EpollWaitDone(p: Proc, q: Proc) {
    && (Signed(q.regs.rax) >= 0 || IsError(Signed(q.regs.rax)))
    && q.mask == p.mask && OnlyInside(p.mem, q.mem, p.regs.rsi, 12 * p.regs.rdx)
  }

  /** A system call ran: everything but the result and the scratch registers is as it was,
      and the instruction it was made from is still there. */
  ghost predicate Executed(p: Proc, q: Proc) {
    && !ReplacesRegs(p.regs.origRax) ==>
         && q.regs == p.regs.(rax := q.regs.rax, rest := q.regs.rest)
         && (AtSyscall(p.mem, WrappingSub(p.regs.rip, 2)) ==> AtSyscall(q.mem, WrappingSub(p.regs.rip, 2)))
         && (p.regs.origRax == SYS_RT_SIGPROCMASK ==> SigprocmaskDone(p, q))
         && (p.regs.origRax == SYS_EPOLL_WAIT ==> EpollWaitDone(p, q))
  }

  predicate MakesEvents(nr: U64) {
    nr in {SYS_CLONE, SYS_FORK, SYS_VFORK, SYS_EXECVE, SYS_EXECVEAT, SYS_CLONE3}
  }

  ghost predicate Untouched(p: Proc, q: Proc) {
    q.regs == p.regs && q.mem == p.mem && q.mask == p.mask
  }

  /** A filter's stop. Before 4.8 it comes first, and the entry stop follows it. Since then a
      tracee that is traced has had its entry stop, and the next one is the exit. */
  ghost predicate FilterStops(order: StopOrder, p: Proc, q: Proc) {
    && p.resumed != Unresumed && q.filtered && q.regs.cs == CS_64
    && match order
       case EntryAfterFilter => q.next == Entry && (p.resumed == Cont || (p.next == Entry && !p.filtered))
       case EntryBeforeFilter =>
         q.next == Exit && (p.resumed == Cont || (p.next == Exit && !p.filtered && Untouched(p, q)))
  }

  /** From a resume to the next stop. Whatever is left open here the kernel, or the program
      the tracee runs, may decide. */
  ghost predicate RunsTo(order: StopOrder, p: Proc, stop: Stop, q: Proc) {
    && q.resumed == p.resumed && q.injected == p.injected && Installable(q.mask)
    && match stop
       case SyscallStop =>
         && p.resumed == SyscallTrace && !q.filtered
         && if p.next == Entry then
              q.next == Exit && (EntersAsIs(p) ==> EntryRegs(p, q.regs) && q.mem == p.mem && q.mask == p.mask)
            else q.next == Entry && Executed(p, q)
       case SignalStop(_) =>
         if p.resumed == Cont then q.next == Entry && !q.filtered
         else
           && q.next == p.next && q.filtered == p.filtered
           && (p.next == Exit || p.resumed == Unresumed || EntersAsIs(p) ==> Untouched(p, q))
       case EventStop =>
         if p.resumed == Cont then q.next == Entry && !q.filtered
         else
           && p.resumed == SyscallTrace && p.next == Exit && MakesEvents(p.regs.origRax)
           && q.next == Exit && q.filtered == p.filtered && q.regs.origRax == p.regs.origRax
           && (!ReplacesRegs(p.regs.origRax) ==> Untouched(p, q))
       case SeccompStop => FilterStops(order, p, q)
  }

  /** The tracees, by pid. A tracee that is stopped can be read, written and resumed. */
  class Kernel {
    var procs: map<Pid, Proc>

    constructor ()
      ensures procs == map[]
    {
      procs := map[];
    }

    method SetRegs(pid: Pid, regs: Regs)
      requires pid in procs
      modifies this
      ensures procs == old(procs)[pid := old(procs)[pid].(regs := regs)]
    {
      procs := procs[pid := procs[pid].(regs := regs)];
    }

    /** Memory as a run of word writes left it. */
    method SetMem(pid: Pid, mem: Memory)
      requires pid in procs
      modifies this
      ensures procs == old(procs)[pid := old(procs)[pid].(mem := mem)]
    {
      procs := procs[pid := procs[pid].(mem := mem)];
    }

    method Read(pid: Pid, addr: Address, len: nat) returns (r: Option<seq<Byte>>)
      requires pid in procs
      ensures r == ReadSpec(procs[pid].mem, addr, len)
    {
      r := ReadStruct(procs[pid].mem, addr, len);
    }

    method Write(pid: Pid, addr: Address, bytes: seq<Byte>) returns (ok: bool)
      requires pid in procs
      modifies this
      ensures ok == WriteSpec(old(procs)[pid].mem, addr, bytes).0
      ensures procs == old(procs)[pid := old(procs)[pid].(mem := WriteSpec(old(procs)[pid].mem, addr, bytes).1)]
    {
      var mem;
      ok, mem := WriteStruct(procs[pid].mem, addr, bytes);
      procs := procs[pid := procs[pid].(mem := mem)];
    }

    method Resume(pid: Pid, request: Request, sig: Option<int>)
      requires pid in procs
      modifies this
      ensures procs == old(procs)[pid := Resumed(old(procs)[pid], request, sig)]
    {
      procs := procs[pid := procs[pid].(resumed := request, injected := if sig == Some(0) then None else sig)];
    }
  }

  /** Signal 0 is no signal. */
  function Resumed(p: Proc, request: Request, sig: Option<int>): Proc {
    p.(resumed := request, injected := if sig == Some(0) then None else sig)
  }
}
