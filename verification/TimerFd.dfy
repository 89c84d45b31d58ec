/** Points in time and durations as (seconds, nanoseconds). */
module TimeMath {

  const BILLION: int := 1_000_000_000

  datatype Time = Time(seconds: int, nanoseconds: int)

  const ZERO := Time(0, 0)

  /** Normalised and not negative, as a timespec from a clock or a well-behaved caller is. */
  predicate Valid(t: Time) {
    0 <= t.seconds && 0 <= t.nanoseconds < BILLION
  }

  function Nanos(t: Time): int { t.seconds * BILLION + t.nanoseconds }

  /** Tuple order. */
  predicate Before(a: Time, b: Time) {
    a.seconds < b.seconds || (a.seconds == b.seconds && a.nanoseconds < b.nanoseconds)
  }

  function Add(a: Time, b: Time): Time {
    var seconds := a.seconds + b.seconds;
    var nanoseconds := a.nanoseconds + b.nanoseconds;
    if nanoseconds >= BILLION then Time(seconds + 1, nanoseconds - BILLION) else Time(seconds, nanoseconds)
  }

  /** a - b, or zero when that is negative. */
  function Sub(a: Time, b: Time): Time {
    var seconds := a.seconds - b.seconds;
    var nanoseconds := a.nanoseconds - b.nanoseconds;
    var s := if nanoseconds < 0 then seconds - 1 else seconds;
    var n := if nanoseconds < 0 then nanoseconds + BILLION else nanoseconds;
    if s < 0 then ZERO else Time(s, n)
  }

  lemma OrderIsNanos(a: Time, b: Time)
    requires Valid(a) && Valid(b)
    ensures Before(a, b) <==> Nanos(a) < Nanos(b)
    ensures Nanos(a) == Nanos(b) ==> a == b
  {
  }

  lemma AddIsNanos(a: Time, b: Time)
    requires Valid(a) && Valid(b)
    ensures Valid(Add(a, b)) && Nanos(Add(a, b)) == Nanos(a) + Nanos(b)
  {
  }

  lemma SubIsNanos(a: Time, b: Time)
    requires Valid(a) && Valid(b)
    ensures Valid(Sub(a, b))
    ensures Nanos(Sub(a, b)) == if Nanos(a) >= Nanos(b) then Nanos(a) - Nanos(b) else 0
    ensures HasPassed(a, b) <==> Nanos(a) < Nanos(b)
  {
  }

  /** Whether Sub takes a point in time for one before now: also of one whose nanoseconds are out
      of range. */
  predicate HasPassed(t: Time, now: Time) {
    t.seconds - (if t.nanoseconds < now.nanoseconds then 1 else 0) < now.seconds
  }

  /** The same of any times, normalised or not. */
  lemma AddKeepsNanos(a: Time, b: Time)
    ensures Nanos(Add(a, b)) == Nanos(a) + Nanos(b)
  {
  }

  lemma SubKeepsNanos(a: Time, b: Time)
    ensures HasPassed(a, b) ==> Sub(a, b) == ZERO
    ensures !HasPassed(a, b) ==> Nanos(Sub(a, b)) == Nanos(a) - Nanos(b)
  {
  }

  /** Subtracting undoes adding. */
  lemma SubUndoesAdd(a: Time, b: Time)
    requires Valid(a) && Valid(b)
    ensures Sub(Add(a, b), a) == b
  {
    AddIsNanos(a, b);
    SubIsNanos(Add(a, b), a);
    OrderIsNanos(Sub(Add(a, b), a), b);
  }

  /** `from` advanced n times. */
  function Advanced(from: Time, interval: Time, n: nat): Time {
    if n == 0 then from else Add(Advanced(from, interval, n - 1), interval)
  }

  lemma {:induction false} AdvancedIsNanos(from: Time, interval: Time, n: nat)
    requires Valid(from) && Valid(interval)
    ensures Valid(Advanced(from, interval, n))
    ensures Nanos(Advanced(from, interval, n)) == Nanos(from) + n * Nanos(interval)
  {
    if n > 0 {
      AdvancedIsNanos(from, interval, n - 1);
      AddIsNanos(Advanced(from, interval, n - 1), interval);
      assert n * Nanos(interval) == (n - 1) * Nanos(interval) + Nanos(interval);
    }
  }

  lemma AdvancedTwice(from: Time, interval: Time, m: nat, n: nat)
    requires Valid(from) && Valid(interval)
    ensures Advanced(Advanced(from, interval, m), interval, n) == Advanced(from, interval, m + n)
  {
    if n > 0 {
      AdvancedTwice(from, interval, m, n - 1);
    }
  }
}

/** The emulated timerfds: a deadline and an interval per fd, one shared interval timer, and
    the flag its signal sets. A write end is an opaque handle, so only its key is kept. */
module TimerFd {
  import opened Options
  import opened TimeMath

  type Fd = int

  const U32_MAX: nat := 0xffff_ffff
  const MICROSECOND: int := 1000

  /** A deadline of `None` is a disarmed timer; an interval of zero makes it one-shot. */
  datatype Timer = Timer(clockid: int, deadline: Option<Time>, interval: Time)

  /** What clock_gettime shows: the time, one for all clocks, and the clocks it knows. */
  datatype Clock = Clock(now: Time, known: set<int>)

  /** What an 8-byte write into a timer's pipe did: all eight bytes, EAGAIN or EINTR, or an
      error that says nobody reads any more. */
  datatype WriteOutcome = Written | Retry | ReaderGone

  datatype State = State(timers: map<Fd, Timer>, writeEnds: set<Fd>, alarm: bool, itimer: Option<int>, handlers: bool)

  predicate ValidTimer(t: Timer) {
    Valid(t.interval) && (t.deadline.Some? ==> Valid(t.deadline.value))
  }

  ghost predicate ValidTimers(timers: map<Fd, Timer>) {
    forall fd <- timers :: ValidTimer(timers[fd])
  }

  /** A deadline that has come. */
  predicate Due(t: Timer, now: Time) {
    t.deadline.Some? && !Before(now, t.deadline.value)
  }

  /** A timer that counts towards a deadline: one whose clock cannot be read never does. */
  predicate Counts(t: Timer, clock: Clock) { t.deadline.Some? && t.clockid in clock.known }

  /** A timer that a tick serves. */
  predicate Serves(t: Timer, clock: Clock) { Counts(t, clock) && Due(t, clock.now) }

  /** Where the loop's count ends, started from `count` with the deadline after so many. */
  function Counted(following: Time, interval: Time, now: Time, count: nat): (r: nat)
    requires count <= U32_MAX
    ensures count <= r <= U32_MAX
    decreases U32_MAX - count
  {
    if Before(now, following) || count == U32_MAX then count
    else Counted(Add(following, interval), interval, now, count + 1)
  }

  /** How many periods a due deadline stands for; 1 for a one-shot. */
  function PeriodsDue(t: Timer, now: Time): nat
    requires t.deadline.Some?
  {
    if t.interval == ZERO then 1 else Counted(Add(t.deadline.value, t.interval), t.interval, now, 1)
  }

  /** The deadline after a due one has been served. */
  function NextDeadline(t: Timer, now: Time): Option<Time>
    requires t.deadline.Some?
  {
    if t.interval == ZERO then None else Some(Advanced(t.deadline.value, t.interval, PeriodsDue(t, now)))
  }

  /** Periods that have ended by now, capped where the loop caps them. */
  function EndedPeriods(elapsed: int, period: int): (n: nat)
    requires elapsed >= 0 && period > 0
    ensures 1 <= n <= U32_MAX
  {
    PeriodBounds(elapsed, period);
    MulMonotone(elapsed / period + 1, 0, period);
    if elapsed / period + 1 < U32_MAX then elapsed / period + 1 else U32_MAX
  }

  lemma {:induction false} CountedIsEnded(d: Time, i: Time, now: Time, count: nat)
    requires Valid(d) && Valid(i) && Valid(now) && Nanos(i) > 0 && Nanos(now) >= Nanos(d)
    requires 1 <= count <= U32_MAX && (count - 1) * Nanos(i) <= Nanos(now) - Nanos(d)
    ensures Counted(Advanced(d, i, count), i, now, count) == EndedPeriods(Nanos(now) - Nanos(d), Nanos(i))
    decreases U32_MAX - count
  {
    var following := Advanced(d, i, count);
    AdvancedIsNanos(d, i, count);
    OrderIsNanos(now, following);
    if !Before(now, following) && count < U32_MAX {
      CountedIsEnded(d, i, now, count + 1);
    } else {
      CountReached(Nanos(now) - Nanos(d), Nanos(i), count);
    }
  }

  /** The count is the number of periods that have ended, capped. */
  lemma PeriodsHaveEnded(t: Timer, now: Time)
    requires ValidTimer(t) && Valid(now) && Due(t, now) && t.interval != ZERO
    ensures Nanos(t.interval) > 0 && Nanos(now) >= Nanos(t.deadline.value)
    ensures PeriodsDue(t, now) == EndedPeriods(Nanos(now) - Nanos(t.deadline.value), Nanos(t.interval))
  {
    var d, i := t.deadline.value, t.interval;
    OrderIsNanos(now, d);
    OrderIsNanos(i, ZERO);
    assert Advanced(d, i, 1) == Add(Advanced(d, i, 0), i) == Add(d, i);
    CountedIsEnded(d, i, now, 1);
  }

  /** When not capped, the next deadline is the first one in the future. */
  lemma NextIsNext(t: Timer, now: Time)
    requires ValidTimer(t) && Valid(now) && Due(t, now) && t.interval != ZERO
    ensures var next := NextDeadline(t, now).value;
            && Valid(next)
            && Nanos(next) == Nanos(t.deadline.value) + PeriodsDue(t, now) * Nanos(t.interval)
            && (PeriodsDue(t, now) < U32_MAX ==> Nanos(now) < Nanos(next) <= Nanos(now) + Nanos(t.interval))
  {
    var d, i := t.deadline.value, t.interval;
    PeriodsHaveEnded(t, now);
    AdvancedIsNanos(d, i, PeriodsDue(t, now));
    PeriodBounds(Nanos(now) - Nanos(d), Nanos(i));
  }

  lemma PeriodBounds(elapsed: int, period: int)
    requires elapsed >= 0 && period > 0
    ensures elapsed < (elapsed / period + 1) * period <= elapsed + period
  {
    assert elapsed == (elapsed / period) * period + elapsed % period;
  }

  lemma PeriodsUnique(elapsed: int, period: int, k: nat)
    requires elapsed >= 0 && period > 0
    requires k * period <= elapsed < (k + 1) * period
    ensures k == elapsed / period
  {
    var q := elapsed / period;
    PeriodBounds(elapsed, period);
    MulMonotone(q + 1, k, period);
    MulMonotone(k + 1, q, period);
    assert q * period <= elapsed;
  }

  lemma MulMonotone(a: int, b: int, period: int)
    requires period > 0
    ensures a <= b ==> a * period <= b * period
  {
    if a <= b {
      assert 0 <= (b - a) * period == b * period - a * period;
    }
  }

  /** The value handed to setitimer: truncated to microseconds, and never zero. Of a time that
      is not normalised, what the kernel makes of it is open. */
  function ItimerNanos(left: Time): (r: int)
    ensures Valid(left) ==> MICROSECOND <= r && (r <= Nanos(left) || r == MICROSECOND)
  {
    var usec := left.nanoseconds / 1000;
    if left.seconds == 0 && usec == 0 then MICROSECOND else left.seconds * BILLION + usec * 1000
  }

  /** The least time left of any deadline. */
  ghost predicate IsSoonest(timers: map<Fd, Timer>, clock: Clock, left: Time) {
    && (exists fd <- timers :: Counts(timers[fd], clock) && Sub(timers[fd].deadline.value, clock.now) == left)
    && forall fd <- timers :: Counts(timers[fd], clock) ==> !Before(Sub(timers[fd].deadline.value, clock.now), left)
  }

  ghost predicate NoDeadline(timers: map<Fd, Timer>, clock: Clock) {
    forall fd <- timers :: !Counts(timers[fd], clock)
  }

  /** How the interval timer stands after it was set for these deadlines. */
  ghost predicate ArmedFor(timers: map<Fd, Timer>, clock: Clock, itimer: Option<int>) {
    if NoDeadline(timers, clock) then itimer == None
    else exists left :: ArmedWith(timers, clock, left, itimer)
  }

  ghost predicate ArmedWith(timers: map<Fd, Timer>, clock: Clock, left: Time, itimer: Option<int>) {
    IsSoonest(timers, clock, left) && (Valid(left) ==> itimer == Some(Nanos(clock.now) + ItimerNanos(left)))
  }

  lemma SoonestIsUnique(timers: map<Fd, Timer>, clock: Clock, l: Time, m: Time)
    requires IsSoonest(timers, clock, l) && IsSoonest(timers, clock, m)
    ensures l == m
  {
    assert !Before(l, m) && !Before(m, l);
  }

  /** What happens to one timer when a tick finds it due. */
  function Served(t: Timer, now: Time, outcome: WriteOutcome): Option<Timer>
    requires Due(t, now)
  {
    match outcome
    case Written => Some(t.(deadline := NextDeadline(t, now)))
    case Retry => if t.interval == ZERO then Some(t) else Some(t.(deadline := NextDeadline(t, now)))
    case ReaderGone => None
  }

  /** One timer across a tick: `None` when it is dropped. A timer that is due goes
      too when it has no write end. */
  function Ticked(s: State, fd: Fd, clock: Clock, outcomes: map<Fd, WriteOutcome>): Option<Timer>
    requires fd in s.timers
  {
    var t := s.timers[fd];
    if !Serves(t, clock) then Some(t)
    else if fd !in s.writeEnds then None
    else Served(t, clock.now, OutcomeOf(outcomes, fd))
  }

  function OutcomeOf(outcomes: map<Fd, WriteOutcome>, fd: Fd): WriteOutcome {
    if fd in outcomes then outcomes[fd] else ReaderGone
  }

  /** A tick that found the alarm set. */
  ghost predicate TickedAll(s: State, s': State, clock: Clock, outcomes: map<Fd, WriteOutcome>) {
    && !s'.alarm
    && s'.handlers == s.handlers
    && (forall fd :: fd in s'.timers <==> fd in s.timers && Ticked(s, fd, clock, outcomes).Some?)
    && (forall fd <- s'.timers :: Ticked(s, fd, clock, outcomes) == Some(s'.timers[fd]))
    && (forall fd :: fd in s'.writeEnds <==>
          fd in s.writeEnds && (fd in s.timers ==> Ticked(s, fd, clock, outcomes).Some?))
    && ArmedFor(s'.timers, clock, s'.itimer)
  }

  class TimerFds {
    var timers: map<Fd, Timer>
    var writeEnds: set<Fd>
    /** The interval timer has gone off since the last Tick. */
    var alarm: bool
    /** When the interval timer goes off, in nanoseconds. */
    var itimer: Option<int>
    /** The SIGALRM and SIGPIPE handlers are in place. */
    var handlers: bool

    ghost function Snapshot(): State
      reads this
    {
      State(timers, writeEnds, alarm, itimer, handlers)
    }

    constructor ()
      ensures Snapshot() == State(map[], {}, false, None, false)
    {
      timers, writeEnds, alarm, itimer, handlers := map[], {}, false, None, false;
    }

    /** What capture_pipe keeps: a disarmed timer for the read end, and the write end. */
    method Create(fd: Fd, clockid: int)
      modifies this
      ensures Snapshot() == old(Snapshot()).(timers := old(timers)[fd := Timer(clockid, None, ZERO)],
                                             writeEnds := old(writeEnds) + {fd}, handlers := true)
    {
      timers := timers[fd := Timer(clockid, None, ZERO)];
      writeEnds := writeEnds + {fd};
      handlers := true;
    }

    /** The application closed an fd. */
    method Close(fd: Fd)
      modifies this
      ensures Snapshot() == old(Snapshot()).(timers := old(timers) - {fd}, writeEnds := old(writeEnds) - {fd})
    {
      timers := timers - {fd};
      writeEnds := writeEnds - {fd};
    }

    /** The loop looks for the least time left; without a deadline the interval timer stays off. */
    method Arm(clock: Clock)
      modifies this`itimer
      ensures ArmedFor(timers, clock, itimer)
    {
      var soonest: Option<Time> := None;
      var todo := timers.Keys;
      while todo != {}
        invariant todo <= timers.Keys
        invariant soonest.Some? ==>
                    exists fd <- timers :: fd !in todo && Counts(timers[fd], clock)
                                           && Sub(timers[fd].deadline.value, clock.now) == soonest.value
        invariant forall fd <- timers :: fd !in todo && Counts(timers[fd], clock) ==>
                    soonest.Some? && !Before(Sub(timers[fd].deadline.value, clock.now), soonest.value)
        decreases todo
      {
        HasMember(todo);
        var fd :| fd in todo;
        todo := todo - {fd};
        var t := timers[fd];
        if Counts(t, clock) {
          var left := Sub(t.deadline.value, clock.now);
          if soonest.None? || Before(left, soonest.value) {
            soonest := Some(left);
          }
        }
      }
      if soonest.Some? {
        itimer := Some(Nanos(clock.now) + ItimerNanos(soonest.value));
        assert ArmedWith(timers, clock, soonest.value, itimer);
      } else {
        itimer := None;
      }
    }

    /** The bookkeeping half of timerfd_settime, once the caller has its old value. A relative
        value needs the clock. */
    method SetTime(fd: Fd, abstime: bool, interval: Time, value: Time, clock: Clock) returns (ok: bool)
      requires fd in timers
      modifies this
      ensures ok == Settable(old(timers)[fd], abstime, value, clock)
      ensures !ok ==> Snapshot() == old(Snapshot())
      ensures ok ==>
                && timers == old(timers)[fd := Timer(old(timers)[fd].clockid, DeadlineFor(abstime, value, clock.now),
                                                     interval)]
                && writeEnds == old(writeEnds) && alarm == old(alarm) && handlers == old(handlers)
                && ArmedFor(timers, clock, itimer)
    {
      var deadline;
      if value == ZERO {
        deadline := None;
      } else if abstime {
        deadline := Some(value);
      } else if timers[fd].clockid in clock.known {
        deadline := Some(Add(clock.now, value));
      } else {
        return false;
      }
      timers := timers[fd := timers[fd].(interval := interval, deadline := deadline)];
      Arm(clock);
      ok := true;
    }

    /** How many periods of an interval timer a due deadline stands for, and the deadline
        after them. */
    static method CountPeriods(t: Timer, now: Time) returns (count: nat, next: Option<Time>)
      requires t.deadline.Some?
      ensures count == PeriodsDue(t, now) && next == NextDeadline(t, now)
    {
      count := 1;
      next := None;
      if t.interval != ZERO {
        ghost var d, i := t.deadline.value, t.interval;
        var following := Add(t.deadline.value, t.interval);
        assert Advanced(d, i, 0) == d;
        while !Before(now, following) && count < U32_MAX
          invariant 1 <= count <= U32_MAX && following == Advanced(d, i, count)
          invariant Counted(following, i, now, count) == PeriodsDue(t, now)
          decreases U32_MAX - count
        {
          following := Add(following, t.interval);
          count := count + 1;
        }
        next := Some(following);
      }
    }

    /** First half of a tick: counts and following deadlines, while all timers are as they were. */
    method CollectDue(clock: Clock) returns (due: map<Fd, (nat, Option<Time>)>)
      ensures forall fd :: fd in due <==> fd in timers && Serves(timers[fd], clock)
      ensures forall fd <- due ::
                && Serves(timers[fd], clock)
                && due[fd] == (PeriodsDue(timers[fd], clock.now), NextDeadline(timers[fd], clock.now))
    {
      due := map[];
      var todo := timers.Keys;
      while todo != {}
        invariant todo <= timers.Keys
        invariant forall fd :: fd in due <==> fd in timers && fd !in todo && Serves(timers[fd], clock)
        invariant forall fd <- due ::
                    && Serves(timers[fd], clock)
                    && due[fd] == (PeriodsDue(timers[fd], clock.now), NextDeadline(timers[fd], clock.now))
        decreases todo
      {
        HasMember(todo);
        var fd :| fd in todo;
        todo := todo - {fd};
        var t := timers[fd];
        if Serves(t, clock) {
          var count, next := CountPeriods(t, clock.now);
          due := due[fd := (count, next)];
        }
      }
    }

    /** Hand over one expiration, and move the timer on as the write went. */
    method Serve(fd: Fd, next: Option<Time>, outcome: WriteOutcome)
      modifies this
      ensures alarm == old(alarm) && handlers == old(handlers) && itimer == old(itimer)
      ensures var gone := fd !in old(writeEnds) || outcome.ReaderGone?;
              && (gone ==> timers == old(timers) - {fd} && writeEnds == old(writeEnds) - {fd})
              && (!gone ==> writeEnds == old(writeEnds))
              && (!gone && fd !in old(timers) ==> timers == old(timers))
              && (!gone && fd in old(timers) ==>
                    timers == old(timers)[fd := if outcome.Retry? && next.None? then old(timers)[fd]
                                                else old(timers)[fd].(deadline := next)])
    {
      if fd !in writeEnds {
        timers := timers - {fd};
        assert writeEnds == writeEnds - {fd};
        return;
      }
      match outcome {
        case Written =>
          if fd in timers {
            timers := timers[fd := timers[fd].(deadline := next)];
          }
        case Retry =>
          if fd in timers && next.Some? {
            timers := timers[fd := timers[fd].(deadline := next)];
          } else if fd in timers {
            assert timers[fd := timers[fd]] == timers;
          }
        case ReaderGone =>
          writeEnds := writeEnds - {fd};
          timers := timers - {fd};
      }
    }

    /** Every due timer is served once, and the interval timer set again, if the alarm was. */
    method Tick(clock: Clock, outcomes: map<Fd, WriteOutcome>)
      modifies this
      ensures !old(alarm) ==> Snapshot() == old(Snapshot())
      ensures old(alarm) ==> TickedAll(old(Snapshot()), Snapshot(), clock, outcomes)
    {
      if !alarm {
        return;
      }
      alarm := false;
      ghost var s := old(Snapshot());
      var due := CollectDue(clock);
      var todo := due.Keys;
      while todo != {}
        invariant todo <= due.Keys && !alarm && handlers == s.handlers
        invariant forall fd :: fd in timers <==>
                    fd in s.timers && (fd !in due || fd in todo || Ticked(s, fd, clock, outcomes).Some?)
        invariant forall fd <- timers ::
                    if fd !in due || fd in todo then timers[fd] == s.timers[fd]
                    else Ticked(s, fd, clock, outcomes) == Some(timers[fd])
        invariant forall fd :: fd in writeEnds <==>
                    fd in s.writeEnds && (fd !in due || fd in todo || Ticked(s, fd, clock, outcomes).Some?)
        decreases todo
      {
        HasMember(todo);
        var fd :| fd in todo;
        todo := todo - {fd};
        assert due[fd].1 == NextDeadline(s.timers[fd], clock.now);
        Serve(fd, due[fd].1, OutcomeOf(outcomes, fd));
      }
      Arm(clock);
    }
  }

  lemma HasMember(s: set<Fd>)
    requires s != {}
    ensures exists fd :: fd in s
  {
    assert (forall fd :: fd !in s) ==> s == {};
  }

  lemma CountReached(elapsed: int, period: int, count: nat)
    requires elapsed >= 0 && period > 0 && 1 <= count <= U32_MAX
    requires (count - 1) * period <= elapsed
    requires elapsed < count * period || count == U32_MAX
    ensures count == if elapsed / period + 1 < U32_MAX then elapsed / period + 1 else U32_MAX
  {
    PeriodBounds(elapsed, period);
    MulMonotone(elapsed / period + 1, count - 1, period);
    if elapsed < count * period {
      PeriodsUnique(elapsed, period, count - 1);
    }
  }

  lemma TickedIsValid(s: State, fd: Fd, clock: Clock, outcomes: map<Fd, WriteOutcome>)
    requires fd in s.timers && ValidTimer(s.timers[fd]) && Valid(clock.now)
    ensures Ticked(s, fd, clock, outcomes).Some? ==> ValidTimer(Ticked(s, fd, clock, outcomes).value)
  {
    var t := s.timers[fd];
    if Serves(t, clock) && t.interval != ZERO {
      NextIsNext(t, clock.now);
    }
  }

  lemma TickedStaysValid(s: State, s': State, clock: Clock, outcomes: map<Fd, WriteOutcome>)
    requires ValidTimers(s.timers) && Valid(clock.now)
    requires forall fd <- s'.timers ::
               && fd in s.timers
               && (Ticked(s, fd, clock, outcomes) == Some(s'.timers[fd]) || s'.timers[fd] == s.timers[fd])
    ensures ValidTimers(s'.timers)
  {
    forall fd <- s'.timers ensures ValidTimer(s'.timers[fd]) {
      TickedIsValid(s, fd, clock, outcomes);
    }
  }

  function DeadlineFor(abstime: bool, value: Time, now: Time): Option<Time> {
    if value == ZERO then None else if abstime then Some(value) else Some(Add(now, value))
  }

  /** What a setting needs: the clock when it is relative. */
  predicate Settable(t: Timer, abstime: bool, value: Time, clock: Clock) {
    value == ZERO || abstime || t.clockid in clock.known
  }
}
