/** What the tracer makes of each stop, as functions of what it remembers of the tracee and
    of the tracee itself. */
module Supervision {
  import opened Options
  import opened TraceeMemory
  import opened Words
  import opened PtraceKernel
  import opened Sequences
  import opened Takeover
  import opened Translations

  /** Every syscall stops, only the filtered ones do, or none does. */
  datatype Mode = EverySyscall | Filtered | SignalsOnly

  datatype Config = Config(mode: Mode, order: StopOrder, child: Pid, env: Env)

  /** What the tracer's per-pid maps and sets hold for one tracee. */
  datatype View = View(configured: bool, inSyscall: bool, lastSyscall: Option<U64>, statx: Option<StatxState>,
                       termios2: Option<U64>, reserved: Option<U64>, stash: Option<int>, expectEntry: bool,
                       active: Option<Active>)

  const BLANK := View(false, false, None, None, None, None, None, false, None)

  datatype After = After(view: View, proc: Proc, sequence: nat)

  /** Filling a buffer from the random source: whether it worked, and memory afterwards. */
  datatype Filled = Filled(ok: bool, mem: Memory)

  function OrElse<T>(a: Option<T>, b: Option<T>): Option<T> { if a.Some? then a else b }

  function ResumedIn(mode: Mode, p: Proc, sig: Option<int>): Proc {
    Resumed(p, if mode == EverySyscall then SyscallTrace else Cont, sig)
  }

  /** XGETBV: 0F 01 D0 */
  predicate AtXgetbv(mem: Memory, at: Address) {
    && PeekWord(mem, at).Some?
    && mem[at] == 0x0f && mem[at + 1] == 0x01 && mem[at + 2] == 0xd0
  }

  /** XGETBV emulated as reading zero. */
  function SkippedXgetbv(regs: Regs): Regs {
    regs.(rax := 0, rdx := 0, rip := (regs.rip + 3) % TWO64)
  }

  /** In the filtering mode: the exit stop of a translated call is still to come. */
  predicate Pending(mode: Mode, v: View) {
    mode == Filtered && (v.reserved.Some? || v.expectEntry || v.statx.Some? || v.lastSyscall.Some?)
  }

  /** Signals that a tracee inside an emulation is not to see yet. */
  predicate Held(sig: int) { sig != 0 && sig != SIGSTOP && sig != SIGTRAP }

  function Configured(c: Config, pid: Pid, v: View): View {
    if pid != c.child then v.(configured := true) else v
  }

  function Delivered(mode: Mode, v: View, p: Proc, sig: int): Proc {
    var skip := sig == SIGILL && AtXgetbv(p.mem, p.regs.rip);
    var q := if skip then p.(regs := SkippedXgetbv(p.regs)) else p;
    var pass := if skip then None else Some(sig);
    if Pending(mode, v) then Resumed(q, SyscallTrace, pass) else ResumedIn(mode, q, pass)
  }

  function OnSignal(c: Config, pid: Pid, v: View, p: Proc, sig: int): (View, Proc) {
    var w := Configured(c, pid, v);
    if w != v && sig == SIGSTOP then (w, ResumedIn(c.mode, p, None))
    else if w.active.Some? && Held(sig) then (w.(stash := Some(sig)), ResumedIn(c.mode, p, None))
    else (w, Delivered(c.mode, w, p, sig))
  }

  function WithCommon(v: View, common: Common): View {
    v.(reserved := OrElse(common.reserved, v.reserved), statx := OrElse(common.statx, v.statx))
  }

  /** A filtered call translated, and whether its exit stop is needed. */
  function AtFilter(c: Config, v: View, p: Proc, out: Outside): (View, Proc, bool) {
    var common := TranslateCommon(c.env, p.regs, p.mem, out);
    var random := common.handled.None? && p.regs.origRax == SYS_GETRANDOM && c.env.getrandomMissing;
    (WithCommon(v, common).(lastSyscall := if random then Some(p.regs.origRax) else v.lastSyscall),
     p.(regs := common.regs, mem := common.mem),
     random || common.handled == Some(true))
  }

  function OnSeccomp(c: Config, v: View, p: Proc, out: Outside): (View, Proc) {
    var (w, q, needsExit) := AtFilter(c, v, p, out);
    if needsExit then (w.(expectEntry := true), Resumed(q, SyscallTrace, None)) else (w, ResumedIn(c.mode, q, None))
  }

  function EntryTranslated(env: Env, v: View, p: Proc, out: Outside): (View, Proc) {
    var common := TranslateCommon(env, p.regs, p.mem, out);
    var regs := if common.handled.Some? then common.regs else OtherRewrites(env, p.regs, p.mem);
    var asked := common.handled.None? && IsTermios2(env, p.regs) && p.regs.rsi == TCGETS2;
    var termios2 := if asked then Some(p.regs.rdx) else v.termios2;
    (WithCommon(v, common).(lastSyscall := Some(p.regs.origRax), termios2 := termios2),
     p.(regs := regs, mem := common.mem))
  }

  /** The application's own entry stop, when nothing took it over. */
  function OnEntry(env: Env, v: View, p: Proc, out: Outside): (View, Proc) {
    if p.regs.cs != CS_64 then (v, p) else EntryTranslated(env, v, p, out)
  }

  /** The speeds of a TCGETS2 answer filled in, or refused when that cannot be done. */
  function SpeedsCompleted(at: Option<U64>, p: Proc): Proc {
    if at.Some? && p.regs.rax == 0 then
      var (ok, mem) := SpeedsFilled(at.value, p.mem);
      p.(mem := mem, regs := if ok then p.regs else p.regs.(rax := Unsigned(-EFAULT)))
    else p
  }

  /** A statx answer completed, or refused when that cannot be done. */
  function StatxCompleted(state: Option<StatxState>, p: Proc): Proc {
    if state.Some? && p.regs.rax == 0 then
      var (ok, mem) := StatxDone(state.value, p.mem);
      p.(mem := mem, regs := if ok then p.regs else p.regs.(rax := Unsigned(-EFAULT)))
    else p
  }

  /** What the kernel's answer lacks. */
  function AnswerCompleted(v: View, p: Proc): Proc { StatxCompleted(v.statx, SpeedsCompleted(v.termios2, p)) }

  lemma AnswerCompletedShape(v: View, p: Proc)
    ensures var q := SpeedsCompleted(v.termios2, p); q == p.(mem := q.mem, regs := p.regs.(rax := q.regs.rax))
    ensures var q := AnswerCompleted(v, p); q == p.(mem := q.mem, regs := p.regs.(rax := q.regs.rax))
    ensures v.termios2.None? && v.statx.None? ==> AnswerCompleted(v, p) == p
  {
    hide SpeedsFilled;
    hide StatxDone;
  }

  function RspRestored(v: View, p: Proc): Proc {
    if v.reserved.Some? then p.(regs := p.regs.(rsp := v.reserved.value)) else p
  }

  /** This exit stop has a random buffer to fill. */
  predicate FillsRandom(env: Env, last: Option<U64>) {
    last == Some(SYS_GETRANDOM) && env.getrandomMissing
  }

  function RandomFilled(env: Env, last: Option<U64>, p: Proc, filled: Filled): Proc {
    if !FillsRandom(env, last) then p
    else if filled.ok then p.(mem := filled.mem, regs := p.regs.(rax := p.regs.rsi))
    else if p.regs.rax == SYS_GETRANDOM then p.(mem := filled.mem, regs := p.regs.(rax := Unsigned(-ENOSYS)))
    else p.(mem := filled.mem)
  }

  lemma RandomFilledShape(env: Env, last: Option<U64>, p: Proc, filled: Filled)
    ensures var q := RandomFilled(env, last, p, filled); q == p.(mem := q.mem, regs := p.regs.(rax := q.regs.rax))
  {
  }

  /** The kernel answered an unknown number with the number. */
  predicate Echoed(env: Env, last: Option<U64>, regs: Regs) {
    && last.Some? && last.value > ABOVE_TABLE && env.echoesNumber
    && regs.origRax == last.value && regs.rax == last.value
  }

  function EchoUndone(env: Env, last: Option<U64>, p: Proc, filled: Filled): Proc {
    if (FillsRandom(env, last) && filled.ok) || !Echoed(env, last, p.regs) then p
    else p.(regs := p.regs.(rax := Unsigned(-ENOSYS)))
  }

  /** What the filling of a random buffer starts from. */
  function BeforeFill(v: View, p: Proc): Proc { RspRestored(v, AnswerCompleted(v, p)) }

  function OnExit(env: Env, v: View, p: Proc, filled: Filled): (View, Proc) {
    if p.regs.cs != CS_64 then (v, p)
    else
      (v.(termios2 := None, statx := None, reserved := None, lastSyscall := None),
       EchoUndone(env, v.lastSyscall, RandomFilled(env, v.lastSyscall, BeforeFill(v, p), filled), filled))
  }

  /** What is known of a fill that this exit stop asks for. */
  ghost predicate FillHappened(env: Env, v: View, p: Proc, out: Outside, filled: Filled) {
    FillsRandom(env, v.lastSyscall) && p.regs.cs == CS_64 ==>
      FillDone(BeforeFill(v, p).mem, p.regs.rdi, p.regs.rsi, out.urandom, out.random, filled.ok, filled.mem)
  }

  function OnSyscallStop(env: Env, v: View, p: Proc, out: Outside, filled: Filled): (View, Proc) {
    var w := v.(inSyscall := !v.inSyscall);
    if v.inSyscall then OnExit(env, w, p, filled) else OnEntry(env, w, p, out)
  }

  /** A syscall stop in the mode where every call stops and no emulation is in flight. */
  function OnOwnSyscall(c: Config, pid: Pid, v: View, p: Proc, sequence: nat, out: Outside, filled: Filled): After {
    var b := Begin(c.env, pid, sequence, p.regs, p.mem, !v.inSyscall, out);
    var q := p.(regs := b.regs, mem := b.mem);
    if b.active.Some? then After(v.(active := b.active), ResumedIn(c.mode, q, None), b.sequence)
    else
      var (w, r) := OnSyscallStop(c.env, v, q, out, filled);
      After(w, ResumedIn(c.mode, r, None), b.sequence)
  }

  /** A syscall stop inside an emulation. */
  function OnInjectedSyscall(c: Config, v: View, p: Proc, sequence: nat, out: Outside): After
    requires v.active.Some?
  {
    var m := Advance(v.active.value, p.regs, PipeCapture(v.active.value, p.mem, out.reopened));
    var q := p.(regs := m.regs);
    if m.active.None? then After(v.(active := None, stash := None), ResumedIn(c.mode, q, v.stash), sequence)
    else After(v.(active := m.active), ResumedIn(c.mode, q, None), sequence)
  }

  function OnFilteredSyscall(c: Config, v: View, p: Proc, filled: Filled): (View, Proc) {
    if v.expectEntry then (v.(expectEntry := false), Resumed(p, SyscallTrace, None))
    else
      var (w, q) := OnExit(c.env, v, p, filled);
      (w, ResumedIn(c.mode, q, None))
  }

  /** One stop: what the tracer remembers afterwards, and the tracee as it is resumed. */
  function Handle(c: Config, pid: Pid, v: View, p: Proc, stop: Stop, sequence: nat, out: Outside,
                  filled: Filled): After {
    match stop
    case SignalStop(sig) => var (w, q) := OnSignal(c, pid, v, p, sig); After(w, q, sequence)
    case SeccompStop => var (w, q) := OnSeccomp(c, v, p, out); After(w, q, sequence)
    case EventStop => After(v, ResumedIn(c.mode, p, None), sequence)
    case SyscallStop =>
      if c.mode == Filtered then var (w, q) := OnFilteredSyscall(c, v, p, filled); After(w, q, sequence)
      else if v.active.Some? then OnInjectedSyscall(c, v, p, sequence, out)
      else OnOwnSyscall(c, pid, v, p, sequence, out, filled)
  }
  /** The application's own exit stop is being handled. */
  predicate HandlesExit(c: Config, v: View, stop: Stop) {
    stop.SyscallStop? && if c.mode == Filtered then !v.expectEntry else v.active.None? && v.inSyscall
  }

  ghost predicate FillMatches(c: Config, v: View, p: Proc, stop: Stop, out: Outside, filled: Filled) {
    HandlesExit(c, v, stop) ==> FillHappened(c.env, v, p, out, filled)
  }

  /** What a stop does to the emulated timers. */
  function InjectedOp(v: View, p: Proc, out: Outside): TimerOp
    requires v.active.Some?
  {
    CaptureOp(v.active.value, PipeCapture(v.active.value, p.mem, out.reopened))
  }

  function OwnOp(env: Env, v: View, p: Proc, sequence: nat, out: Outside): TimerOp {
    BeginTimerOp(env, sequence, p.regs, p.mem, !v.inSyscall, out)
  }

  function StopOp(c: Config, v: View, p: Proc, stop: Stop, sequence: nat, out: Outside): TimerOp {
    if !stop.SyscallStop? || c.mode == Filtered then NoOp
    else if v.active.Some? then InjectedOp(v, p, out)
    else OwnOp(c.env, v, p, sequence, out)
  }

  /** What a wait for any tracee brings. */
  datatype Wait =
    | Exited(pid: Pid, code: int)
    | Signaled(pid: Pid, sig: int)
    | Halted(pid: Pid, stop: Stop)
    | NoTracees
    | Interrupted

  /** A tracee's end: whether the tracer exits, and the code it remembers. With a filter it runs
      on, since the filter outlives it. */
  function Ended(c: Config, mainCode: Option<int>, pid: Pid, code: int): (Option<int>, Option<int>) {
    if pid != c.child then (None, mainCode)
    else if c.mode == Filtered then (None, Some(code))
    else (Some(code), mainCode)
  }

  function TurnEnds(c: Config, mainCode: Option<int>, wait: Wait): (Option<int>, Option<int>) {
    match wait
    case Exited(pid, code) => Ended(c, mainCode, pid, code)
    case Signaled(pid, sig) => Ended(c, mainCode, pid, 128 + sig)
    case Halted(_, _) => (None, mainCode)
    case NoTracees => (Some(if mainCode.Some? then mainCode.value else 0), mainCode)
    case Interrupted => (None, mainCode)
  }
}
