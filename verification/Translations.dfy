/** Calls that are answered by rewriting them at their entry and putting things right at
    their exit, as functions of the tracee's registers and memory. */
module Translations {
  import opened Options
  import opened TraceeMemory
  import opened Words
  import opened PtraceKernel
  import opened Sequences
  import opened Takeover
  import opened TimeMath

  const SYS_FSTAT: U64 := 5
  const SYS_POLL: U64 := 7
  const SYS_IOCTL: U64 := 16
  const SYS_GETRLIMIT: U64 := 97
  const SYS_SETRLIMIT: U64 := 160
  const SYS_FUTEX: U64 := 202
  const SYS_EPOLL_CREATE: U64 := 213
  const SYS_CLOCK_GETTIME: U64 := 228
  const SYS_CLOCK_GETRES: U64 := 229
  const SYS_CLOCK_NANOSLEEP: U64 := 230
  const SYS_NEWFSTATAT: U64 := 262
  const SYS_PPOLL: U64 := 271
  const SYS_EPOLL_CREATE1: U64 := 291
  const SYS_PIPE2: U64 := 293
  const SYS_PRLIMIT64: U64 := 302
  const SYS_GETRANDOM: U64 := 318
  const SYS_STATX: U64 := 332

  const FUTEX_WAIT: nat := 0
  const FUTEX_WAKE: nat := 1
  const FUTEX_WAIT_BITSET: nat := 9
  const FUTEX_WAKE_BITSET: nat := 10
  const FUTEX_CLOCK_REALTIME: nat := 256
  const AT_EMPTY_PATH: nat := 0x1000
  const AT_SYMLINK_NOFOLLOW: U64 := 0x100

  const TCGETS: U64 := 0x5401
  const TCSETS: U64 := 0x5402
  const TCSETSW: U64 := 0x5403
  const TCSETSF: U64 := 0x5404
  const TCGETS2: U64 := 0x802c_542a
  const TCSETS2: U64 := 0x402c_542b
  const TCSETSW2: U64 := 0x402c_542c
  const TCSETSF2: U64 := 0x402c_542d

  /** Where the two speeds of a `struct termios2` start. */
  const SPEEDS_AT: nat := 36

  const EFAULT: int := 14
  const ENOSYS: int := 38

  /** A number above the call table of every kernel that echoes. */
  const ABOVE_TABLE: U64 := 279

  datatype StatxState = StatxState(statxbuf: U64, scratch: U64)

  /** What became of a futex, pipe2 or statx; `handled` is None for any other call, and otherwise
      whether its exit stop is needed. */
  datatype Common = Common(handled: Option<bool>, regs: Regs, mem: Memory, reserved: Option<U64>,
                           statx: Option<StatxState>)

  /** The command of a futex op, without flags and in its plain form. */
  function BareCommand(op: nat): (r: nat)
    ensures r < 128
  {
    var cmd := op % 128;
    if cmd == FUTEX_WAIT_BITSET then FUTEX_WAIT else if cmd == FUTEX_WAKE_BITSET then FUTEX_WAKE else cmd
  }

  /** A wait whose timeout is a point in time. */
  predicate WaitsUntil(op: nat) {
    BareCommand(op) == FUTEX_WAIT && (op % 128 == FUTEX_WAIT_BITSET || Bit(op, FUTEX_CLOCK_REALTIME))
  }

  datatype Timeout = NoTimeout | Reserved(scratch: U64, after: Memory) | Failed(left: Memory)

  /** The clock that a futex op counts by. */
  function FutexClock(realtime: bool, out: Outside): Option<Time> {
    if realtime then out.realtime else out.monotonic
  }

  /** The time left until the caller's timeout, below the stack. */
  function RelativeTimeout(at: U64, rsp: U64, mem: Memory, clock: Option<Time>): Timeout {
    if at == 0 then NoTimeout
    else
      match ReadSpec(mem, at, 16)
      case None => Failed(mem)
      case Some(raw) =>
        if clock.None? then Failed(mem)
        else
          var (ok, mem') := WriteSpec(mem, Scratch(rsp), TimeBytes(Sub(ReadTime(raw, 0), clock.value)));
          if ok then Reserved(Scratch(rsp), mem') else Failed(mem')
  }

  function MemoryAfter(t: Timeout, mem: Memory): Memory {
    match t
    case NoTimeout => mem
    case Reserved(_, after) => after
    case Failed(left) => left
  }

  /** A wait until a point in time becomes a wait for the time left; when that cannot be
      worked out the call is left alone, to fail. */
  function TimedFutex(regs: Regs, bare: nat, mem: Memory, clock: Option<Time>): Common
    requires bare < 128
  {
    match RelativeTimeout(regs.r10, regs.rsp, mem, clock)
    case NoTimeout => Common(Some(false), regs.(rsi := bare), mem, None, None)
    case Reserved(scratch, mem') =>
      Common(Some(true), regs.(rsp := scratch, r10 := scratch, rsi := bare), mem', Some(regs.rsp), None)
    case Failed(mem') => Common(Some(false), regs, mem', None, None)
  }

  function Futex(env: Env, regs: Regs, mem: Memory, out: Outside): Common {
    var op := regs.rsi % 0x1_0000_0000;
    var bare := BareCommand(op);
    if !env.before2_6_29 || bare == op then Common(Some(false), regs, mem, None, None)
    else if WaitsUntil(op) then TimedFutex(regs, bare, mem, FutexClock(Bit(op, FUTEX_CLOCK_REALTIME), out))
    else Common(Some(false), regs.(rsi := bare), mem, None, None)
  }

  /** An op every kernel knows: no flags, and none of the bitset forms. */
  predicate IsPlainOp(op: nat) { op < 128 && op != FUTEX_WAIT_BITSET && op != FUTEX_WAKE_BITSET }

  /** A wait whose timeout is a point in time, by flag or by form. */
  predicate EndsAt(op: nat) {
    op % 128 == FUTEX_WAIT_BITSET || (op % 128 == FUTEX_WAIT && Bit(op, FUTEX_CLOCK_REALTIME))
  }

  /** The point in time can be made into the time left: it can be read, its clock too, and there is room
      for the answer. */
  predicate Converts(op: nat, regs: Regs, mem: Memory, out: Outside) {
    && ReadSpec(mem, regs.r10, 16).Some? && WordsMapped(mem, Scratch(regs.rsp), 16)
    && (if Bit(op, FUTEX_CLOCK_REALTIME) then out.realtime.Some? else out.monotonic.Some?)
  }

  /** Whatever the op, the kernel gets a plain one or the call as it was: as it was exactly when the op
      is plain, when the kernel is new enough, or when a point in time could not be converted. A wait
      until a point in time never reaches it as a wait for that long. */
  lemma FutexGetsPlainOp(env: Env, regs: Regs, mem: Memory, out: Outside)
    ensures var c, op := Futex(env, regs, mem, out), regs.rsi % 0x1_0000_0000;
            var timed := EndsAt(op) && regs.r10 != 0;
            && (c.regs == regs <==>
                  !env.before2_6_29 || IsPlainOp(op) || (timed && !Converts(op, regs, mem, out)))
            && (c.regs != regs ==>
                  IsPlainOp(c.regs.rsi) && c.regs == regs.(rsi := c.regs.rsi, r10 := c.regs.r10, rsp := c.regs.rsp))
            && (!env.before2_6_29 || IsPlainOp(op) || !timed ==>
                  c.mem == mem && c.regs.r10 == regs.r10 && c.regs.rsp == regs.rsp && c.reserved.None?)
            && (c.reserved.Some? <==> timed && c.regs != regs)
  {
    hide ReadTime;
    hide TimeBytes;
    hide Scratch;
    var realtime := Bit(regs.rsi % 0x1_0000_0000, FUTEX_CLOCK_REALTIME);
    RelativeTimeoutGiven(regs.r10, regs.rsp, mem, FutexClock(realtime, out));
    hide RelativeTimeout;
  }

  lemma RelativeTimeoutGiven(at: U64, rsp: U64, mem: Memory, clock: Option<Time>)
    ensures var t := RelativeTimeout(at, rsp, mem, clock);
            && (t.NoTimeout? <==> at == 0)
            && (at != 0 ==>
                  (t.Reserved? <==> ReadSpec(mem, at, 16).Some? && clock.Some? && WordsMapped(mem, Scratch(rsp), 16)))
  {
    hide Scratch;
    hide ReadTime;
    hide Sub;
    if at != 0 && ReadSpec(mem, at, 16).Some? && clock.Some? {
      assert |TimeBytes(Sub(ReadTime(ReadSpec(mem, at, 16).value, 0), clock.value))| == 16;
    }
    hide TimeBytes;
    hide ReadSpec;
  }

  /** statx becomes fstat or newfstatat into scratch memory. */
  function Statx(regs: Regs, mem: Memory): Common {
    if regs.r8 == 0 then Common(Some(true), regs, mem, None, None)
    else
      var scratch := Scratch(regs.rsp);
      var patched :=
        if Bit(regs.rdx, AT_EMPTY_PATH) then
          regs.(rsp := scratch, rsi := scratch, rdx := 0, origRax := SYS_FSTAT, rax := SYS_FSTAT)
        else
          var flags := if Bit(regs.rdx, AT_SYMLINK_NOFOLLOW) then AT_SYMLINK_NOFOLLOW else 0;
          regs.(rsp := scratch, r10 := flags, rdx := scratch, origRax := SYS_NEWFSTATAT, rax := SYS_NEWFSTATAT);
      Common(Some(true), patched, mem, Some(regs.rsp), Some(StatxState(regs.r8, scratch)))
  }

  function TranslateCommon(env: Env, regs: Regs, mem: Memory, out: Outside): Common {
    if regs.origRax == SYS_FUTEX then Futex(env, regs, mem, out)
    else if regs.origRax == SYS_PIPE2 && env.pipe2Missing then
      Common(Some(false), regs.(origRax := SYS_PIPE, rax := SYS_PIPE), mem, None, None)
    else if regs.origRax == SYS_STATX && env.statxMissing then Statx(regs, mem)
    else Common(None, regs, mem, None, None)
  }

  /** Some call this kernel lacks has to be put right at its exit. */
  predicate NeedsExits(env: Env) { env.statxMissing || env.getrandomMissing || env.before2_6_29 }

  /** `/` on i64, which truncates towards zero. */
  function Truncated(x: int, d: int): int
    requires d > 0
  {
    if x >= 0 then x / d else -(-x / d)
  }

  function Clamp(x: int, low: int, high: int): int {
    if x < low then low else if x > high then high else x
  }

  /** saturating arithmetic on i64 */
  function Saturated(x: int): I64 { Clamp(x, -TWO63, TWO63 - 1) }

  const I32_MAX: int := 0x7fff_ffff

  /** A poll timeout in milliseconds. */
  function Milliseconds(t: Time): int {
    Clamp(Saturated(Saturated(t.seconds * 1000) + Truncated(t.nanoseconds, 1_000_000)), -1, I32_MAX)
  }

  /** Of a normalised time never longer than asked for, and less than a millisecond shorter
      unless it does not fit. Of any time less than a millisecond off while it fits; and a
      time a millisecond or more below zero becomes -1, which poll takes for ever. */
  lemma MillisecondsRoundDown(t: Time)
    requires -TWO63 <= t.nanoseconds < TWO63
    ensures var ms := Milliseconds(t);
            && -1 <= ms <= I32_MAX
            && (Valid(t) ==> 0 <= ms && ms * 1_000_000 <= Nanos(t))
            && (Valid(t) && ms < I32_MAX ==> Nanos(t) < (ms + 1) * 1_000_000)
            && (0 <= ms < I32_MAX ==> (ms - 1) * 1_000_000 < Nanos(t) < (ms + 1) * 1_000_000)
            && (Nanos(t) <= -1_000_000 ==> ms == -1)
            && (ms == -1 ==> Nanos(t) < 0)
  {
    TruncatedIsNear(t.nanoseconds);
    var exact := t.seconds * 1000 + Truncated(t.nanoseconds, 1_000_000);
    assert Milliseconds(t) == Clamp(exact, -1, I32_MAX);
  }

  lemma TruncatedIsNear(x: int)
    ensures var q := Truncated(x, 1_000_000);
            && -1_000_000 < x - q * 1_000_000 < 1_000_000
            && (x >= 0 ==> 0 <= q <= x && q * 1_000_000 <= x)
            && (x <= 0 ==> x <= q <= 0)
  {
  }

  function PpollTimeout(at: U64, mem: Memory): int {
    if at == 0 then -1
    else
      match ReadSpec(mem, at, 16)
      case None => -1
      case Some(raw) => Milliseconds(ReadTime(raw, 0))
  }

  /** The request that does the same on kernels before the termios2 ones. */
  function LegacyRequest(request: U64): Option<U64> {
    if request == TCGETS2 then Some(TCGETS)
    else if request == TCSETS2 then Some(TCSETS)
    else if request == TCSETSW2 then Some(TCSETSW)
    else if request == TCSETSF2 then Some(TCSETSF)
    else None
  }

  /** This ioctl is a termios2 one that the kernel lacks. */
  predicate IsTermios2(env: Env, regs: Regs) {
    regs.origRax == SYS_IOCTL && env.before2_6_20 && LegacyRequest(regs.rsi).Some?
  }

  /** Line speeds by their code in c_cflag: its low four bits, and bit 12 as the fifth. */
  const SPEEDS: seq<nat> := [
    0, 50, 75, 110, 134, 150, 200, 300, 600, 1200, 1800, 2400, 4800, 9600, 19200, 38400,
    0, 57600, 115200, 230400, 460800, 500000, 576000, 921600, 1000000, 1152000, 1500000, 2000000, 2500000, 3000000,
    3500000, 4000000]

  function Speed(cflag: nat): nat { SPEEDS[cflag % 16 + (if Bit(cflag, 0x1000) then 16 else 0)] }

  /** The order of the codes, by their low four bits and bit 12; 0 where they stand for no speed. */
  function SpeedRank(cflag: nat): nat {
    if cflag % 16 == 0 then 0 else if cflag / 0x1000 % 2 == 1 then 16 + cflag % 16 else cflag % 16
  }

  /** A higher code is a higher speed, so that a speed tells its code. */
  lemma SpeedsTellCodes(a: nat, b: nat)
    ensures Speed(a) < Speed(b) <==> SpeedRank(a) < SpeedRank(b)
    ensures Speed(a) == Speed(b) <==> SpeedRank(a) == SpeedRank(b)
  {
    hide Bit;
    SpeedIsRanked(a);
    SpeedIsRanked(b);
    if SpeedRank(a) < SpeedRank(b) {
      RanksRise(SpeedRank(a), SpeedRank(b));
    } else if SpeedRank(b) < SpeedRank(a) {
      RanksRise(SpeedRank(b), SpeedRank(a));
    }
  }

  /** The speed of a rank: the second 0 of the table is left out. */
  function Ranked(rank: nat): nat
    requires rank < 32
  {
    if rank == 16 then SPEEDS[15] else SPEEDS[rank]
  }

  lemma SpeedIsRanked(cflag: nat)
    ensures SpeedRank(cflag) < 32 && SpeedRank(cflag) != 16 && Speed(cflag) == Ranked(SpeedRank(cflag))
  {
  }

  lemma {:induction false} RanksRise(i: nat, j: nat)
    requires i < j < 32
    ensures Ranked(i) <= Ranked(j) && (j != 16 ==> Ranked(i) < Ranked(j))
  {
    if i + 1 < j {
      RanksRise(i, j - 1);
    }
  }

  /** The speeds of an answered TCGETS2, from the flags that precede them. */
  function SpeedsFilled(at: U64, mem: Memory): (bool, Memory) {
    var speed := match ReadSpec(mem, at, SPEEDS_AT)
      case None => 0
      case Some(termios) => Speed(FromBytes(termios[8..12]));
    WriteSpec(mem, at + SPEEDS_AT, ToBytes(speed, 4) + ToBytes(speed, 4))
  }

  lemma SpeedFits(cflag: nat)
    ensures Speed(cflag) < Power256(4)
  {
    assert Power256(2) == 65536;
    assert Power256(4) == 65536 * Power256(2);
  }

  /** Both speeds are the one that c_cflag stands for, and nothing else of what the kernel
      answered is touched. */
  lemma SpeedsAreFromFlags(at: U64, mem: Memory, termios: seq<Byte>)
    requires ReadSpec(mem, at, SPEEDS_AT) == Some(termios) && SpeedsFilled(at, mem).0
    ensures var after := SpeedsFilled(at, mem).1;
            && ReadSpec(after, at, SPEEDS_AT) == Some(termios)
            && ReadSpec(after, at + SPEEDS_AT, 8).Some?
            && var speeds := ReadSpec(after, at + SPEEDS_AT, 8).value;
            && FromBytes(speeds[0..4]) == FromBytes(speeds[4..8]) == Speed(FromBytes(termios[8..12]))
  {
    var speed := Speed(FromBytes(termios[8..12]));
    SpeedFits(FromBytes(termios[8..12]));
    BytesRoundTrip(speed, 4);
    hide Speed;
    hide FromBytes;
    hide ToBytes;
    var four := ToBytes(speed, 4);
    var speeds := four + four;
    assert speeds[0..4] == four && speeds[4..8] == four;
    WrittenIsRead(mem, at + SPEEDS_AT, speeds);
    ReadBesideWrite(mem, at + SPEEDS_AT, speeds, at, SPEEDS_AT);
  }

  /** The rewrites that only change the number and the arguments. */
  function OtherRewrites(env: Env, regs: Regs, mem: Memory): Regs {
    if regs.origRax == SYS_EPOLL_CREATE1 && env.epollCreate1Missing then
      regs.(origRax := SYS_EPOLL_CREATE, rax := SYS_EPOLL_CREATE, rdi := 1)
    else if regs.origRax == SYS_PRLIMIT64 && env.prlimit64Missing then
      if regs.rdi != 0 then regs
      else
        var number := if regs.rdx != 0 then SYS_SETRLIMIT else SYS_GETRLIMIT;
        regs.(origRax := number, rax := number, rdi := regs.rsi, rsi := if regs.rdx != 0 then regs.rdx else regs.r10)
    else if regs.origRax == SYS_IOCTL && env.before2_6_20 then
      if LegacyRequest(regs.rsi).Some? then regs.(rsi := LegacyRequest(regs.rsi).value) else regs
    else if regs.origRax in {SYS_CLOCK_GETTIME, SYS_CLOCK_GETRES, SYS_CLOCK_NANOSLEEP} then
      regs.(rdi := ReplacedClock(env, regs.rdi))
    else if regs.origRax == SYS_PPOLL && env.ppollMissing then
      regs.(rdx := Wrapped(PpollTimeout(regs.rdx, mem)), origRax := SYS_POLL, rax := SYS_POLL)
    else regs
  }

  /** Bytes [from, to) of a `struct stat`. */
  function Field(stat: seq<Byte>, from: nat, to: nat): seq<Byte>
    requires from <= to <= |stat|
  {
    stat[from..to]
  }

  function Zeros(n: nat): (r: seq<Byte>)
    ensures |r| == n
  {
    seq(n, _ => 0)
  }

  /** The 32-bit major number in an 8-byte device number: bits 8 to 19, and 44 to 63 as the
      upper twenty. */
  function MajorBytes(dev: seq<Byte>): (r: seq<Byte>)
    requires |dev| == 8
    ensures |r| == 4
  {
    [dev[1], dev[2] % 16 + dev[5] / 16 * 16, dev[6], dev[7]]
  }

  /** The minor number: bits 0 to 7, and 20 to 43 as the upper twenty-four. */
  function MinorBytes(dev: seq<Byte>): (r: seq<Byte>)
    requires |dev| == 8
    ensures |r| == 4
  {
    [dev[0], dev[2] / 16 + dev[3] % 16 * 16, dev[3] / 16 + dev[4] % 16 * 16, dev[4] / 16 + dev[5] % 16 * 16]
  }

  /** How device numbers are put together from the two. */
  function MakeDev(major: seq<Byte>, minor: seq<Byte>): (r: seq<Byte>)
    requires |major| == 4 && |minor| == 4
    ensures |r| == 8
  {
    [minor[0], major[0], major[1] % 16 + minor[1] % 16 * 16, minor[1] / 16 + minor[2] % 16 * 16,
     minor[2] / 16 + minor[3] % 16 * 16, minor[3] / 16 + major[1] / 16 * 16, major[2], major[3]]
  }

  /** A device number is taken apart into what it was put together from. */
  lemma DeviceRoundTrip(major: seq<Byte>, minor: seq<Byte>)
    requires |major| == 4 && |minor| == 4
    ensures MajorBytes(MakeDev(major, minor)) == major && MinorBytes(MakeDev(major, minor)) == minor
  {
    Nibbles(major[1] % 16, minor[1] % 16);
    Nibbles(minor[1] / 16, minor[2] % 16);
    Nibbles(minor[2] / 16, minor[3] % 16);
    Nibbles(minor[3] / 16, major[1] / 16);
  }

  lemma Nibbles(low: nat, high: nat)
    requires low < 16 && high < 16
    ensures (low + high * 16) % 16 == low && (low + high * 16) / 16 == high
  {
  }

  /** `struct stat` as `struct statx`. */
  function BuildStatx(stat: seq<Byte>): (r: seq<Byte>)
    requires |stat| == 144
    ensures |r| == 256
  {
    [0xff, 7, 0, 0] + Field(stat, 56, 60) + Zeros(8) + Field(stat, 16, 20) + Field(stat, 28, 36) + Field(stat, 24, 26)
      + Zeros(2)
    + Field(stat, 8, 16) + Field(stat, 48, 56) + Field(stat, 64, 72) + Zeros(8)
    + Field(stat, 72, 84) + Zeros(20) + Field(stat, 104, 116) + Zeros(4) + Field(stat, 88, 100) + Zeros(4)
    + MajorBytes(Field(stat, 40, 48)) + MinorBytes(Field(stat, 40, 48))
    + MajorBytes(Field(stat, 0, 8)) + MinorBytes(Field(stat, 0, 8)) + Zeros(112)
  }

  /** A statx whose stat call came back: whether the answer could be completed. */
  function StatxDone(state: StatxState, mem: Memory): (bool, Memory) {
    match ReadSpec(mem, state.scratch, 144)
    case None => (false, mem)
    case Some(stat) => WriteSpec(mem, state.statxbuf, BuildStatx(stat))
  }

  /** A timed wait still ends when the caller said, by the clock the caller named: the time
      left, counted from now, comes to the caller's point in time, or to now when that has
      passed; and it is the plain wait with its timeout in scratch memory. */
  lemma TimedWaitKeepsDeadline(env: Env, regs: Regs, mem: Memory, out: Outside, raw: seq<Byte>, now: Time)
    requires Futex(env, regs, mem, out).reserved.Some? && ReadSpec(mem, regs.r10, 16) == Some(raw)
    requires Valid(now)
    requires (if Bit(regs.rsi % 0x1_0000_0000, FUTEX_CLOCK_REALTIME) then out.realtime else out.monotonic) == Some(now)
    ensures WaitsFor(Futex(env, regs, mem, out), FUTEX_WAIT, regs, ReadTime(raw, 0), now)
  {
    hide TimedFutex;
    hide ReadTime;
    TimeLeftIsWritten(regs, FUTEX_WAIT, mem, raw, now);
  }

  /** A futex call that waits for what is left until this point in time. */
  ghost predicate WaitsFor(c: Common, command: nat, regs: Regs, until: Time, now: Time) {
    && c.regs.rsi == command && c.regs.r10 == Scratch(regs.rsp) && ReadSpec(c.mem, c.regs.r10, 16).Some?
    && var left := ReadTime(ReadSpec(c.mem, c.regs.r10, 16).value, 0);
    && Nanos(now) + Nanos(left) == (if HasPassed(until, now) then Nanos(now) else Nanos(until))
    && (Valid(until) ==> Valid(left) && (HasPassed(until, now) <==> Before(until, now)))
  }

  lemma TimeLeftIsWritten(regs: Regs, bare: nat, mem: Memory, raw: seq<Byte>, now: Time)
    requires bare < 128 && TimedFutex(regs, bare, mem, Some(now)).reserved.Some?
    requires ReadSpec(mem, regs.r10, 16) == Some(raw) && Valid(now)
    ensures WaitsFor(TimedFutex(regs, bare, mem, Some(now)), bare, regs, ReadTime(raw, 0), now)
  {
    var until := ReadTime(raw, 0);
    var left := Sub(until, now);
    SubKeepsNanos(until, now);
    if Valid(until) {
      SubIsNanos(until, now);
      OrderIsNanos(until, now);
    }
    TimeRoundTrip(left);
    hide TimeBytes;
    hide ReadTime;
    WrittenIsRead(mem, Scratch(regs.rsp), TimeBytes(left));
  }

  /** At the offsets of `struct statx`, every field is the one of `struct stat` it stands for. */
  predicate IsStatxOf(s: seq<Byte>, stat: seq<Byte>)
    requires |s| == 256 && |stat| == 144
  {
    && Field(s, 0, 4) == [0xff, 7, 0, 0]        // stx_mask: STATX_BASIC_STATS
    && Field(s, 4, 8) == Field(stat, 56, 60)    // stx_blksize
    && Field(s, 16, 20) == Field(stat, 16, 20)  // stx_nlink
    && Field(s, 20, 24) == Field(stat, 28, 32)  // stx_uid
    && Field(s, 24, 28) == Field(stat, 32, 36)  // stx_gid
    && Field(s, 28, 30) == Field(stat, 24, 26)  // stx_mode
    && Field(s, 32, 40) == Field(stat, 8, 16)   // stx_ino
    && Field(s, 40, 48) == Field(stat, 48, 56)  // stx_size
    && Field(s, 48, 56) == Field(stat, 64, 72)  // stx_blocks
    && Field(s, 64, 72) == Field(stat, 72, 80) && Field(s, 72, 76) == Field(stat, 80, 84)        // stx_atime
    && Field(s, 96, 104) == Field(stat, 104, 112) && Field(s, 104, 108) == Field(stat, 112, 116) // stx_ctime
    && Field(s, 112, 120) == Field(stat, 88, 96) && Field(s, 120, 124) == Field(stat, 96, 100)   // stx_mtime
    && Field(s, 128, 132) == MajorBytes(Field(stat, 40, 48))  // stx_rdev
    && Field(s, 132, 136) == MinorBytes(Field(stat, 40, 48))
    && Field(s, 136, 140) == MajorBytes(Field(stat, 0, 8))    // stx_dev
    && Field(s, 140, 144) == MinorBytes(Field(stat, 0, 8))
  }

  lemma StatxFields(stat: seq<Byte>)
    requires |stat| == 144
    ensures IsStatxOf(BuildStatx(stat), stat)
  {
    hide MajorBytes;
    hide MinorBytes;
    var s := BuildStatx(stat);
    assert s[4..8] == Field(stat, 56, 60);
    assert s[20..28] == Field(stat, 28, 36) && s[20..24] == s[20..28][..4]
           && Field(stat, 28, 32) == Field(stat, 28, 36)[..4];
    assert s[64..76] == Field(stat, 72, 84) && s[64..72] == s[64..76][..8]
           && Field(stat, 72, 80) == Field(stat, 72, 84)[..8];
    assert s[96..108] == Field(stat, 104, 116) && s[96..104] == s[96..108][..8]
           && Field(stat, 104, 112) == Field(stat, 104, 116)[..8];
    assert s[112..124] == Field(stat, 88, 100) && s[112..120] == s[112..124][..8]
           && Field(stat, 88, 96) == Field(stat, 88, 100)[..8];
  }
}
