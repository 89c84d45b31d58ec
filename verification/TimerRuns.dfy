/** Whole runs of the timerfd emulation: every interleaving of creations, closes, settings,
    alarms, ticks with any write outcomes, and the passing of time.

    The clock stands still within one step, and all timers count in it. */
module TimerRuns {
  import opened Options
  import opened TimeMath
  import opened TimerFd

  /** What an observer remembers of the latest setting of a timer: its first deadline, and
      the periods its successful writes reported and its failed ones dropped since. */
  datatype Arming = Arming(first: Option<Time>, interval: Time, reported: nat, dropped: nat, writes: nat)

  datatype World = World(s: State, clock: Clock, lastArm: int, armings: map<Fd, Arming>)

  datatype Event =
    | Created(fd: Fd, clockid: int)
    | Closed(fd: Fd)
    | Set(fd: Fd, abstime: bool, interval: Time, value: Time)
    | Fired
    | Tick(outcomes: map<Fd, WriteOutcome>)
    | Later(to: Time)

  /** The start, with the clocks this kernel knows. */
  ghost function Initially(known: set<int>): World {
    World(State(map[], {}, false, None, false), Clock(ZERO, known), 0, map[])
  }

  ghost predicate WellFormed(w: World) {
    ValidTimers(w.s.timers) && Valid(w.clock.now)
  }

  function Accounted(a: Arming, t: Timer, now: Time, outcome: WriteOutcome): Arming
    requires ValidTimer(t) && Valid(now) && Due(t, now)
  {
    match outcome
    case Written => a.(reported := a.reported + PeriodsDue(t, now), writes := a.writes + 1)
    case Retry => if t.interval == ZERO then a else a.(dropped := a.dropped + PeriodsDue(t, now))
    case ReaderGone => a
  }

  function AccountedFor(w: World, fd: Fd, outcomes: map<Fd, WriteOutcome>): Arming
    requires fd in w.armings && Valid(w.clock.now) && (fd in w.s.timers ==> ValidTimer(w.s.timers[fd]))
  {
    if fd in w.s.timers && Serves(w.s.timers[fd], w.clock) && fd in w.s.writeEnds
    then Accounted(w.armings[fd], w.s.timers[fd], w.clock.now, OutcomeOf(outcomes, fd))
    else w.armings[fd]
  }

  ghost predicate SetStep(w: World, fd: Fd, abstime: bool, interval: Time, value: Time, w': World) {
    if fd !in w.s.timers || !Settable(w.s.timers[fd], abstime, value, w.clock) then w' == w
    else
      var deadline := DeadlineFor(abstime, value, w.clock.now);
      && w'.s.timers == w.s.timers[fd := Timer(w.s.timers[fd].clockid, deadline, interval)]
      && w'.s.writeEnds == w.s.writeEnds && w'.s.alarm == w.s.alarm && w'.s.handlers == w.s.handlers
      && ArmedFor(w'.s.timers, w.clock, w'.s.itimer)
      && w'.clock == w.clock && w'.lastArm == Nanos(w.clock.now)
      && w'.armings == w.armings[fd := Arming(deadline, interval, 0, 0, 0)]
  }

  ghost predicate TickStep(w: World, outcomes: map<Fd, WriteOutcome>, w': World)
    requires WellFormed(w)
  {
    if !w.s.alarm then w' == w
    else
      && TickedAll(w.s, w'.s, w.clock, outcomes)
      && w'.clock == w.clock && w'.lastArm == Nanos(w.clock.now)
      && w'.armings.Keys == w.armings.Keys
      && forall fd <- w.armings :: w'.armings[fd] == AccountedFor(w, fd, outcomes)
  }

  /** One step of the system; the tracer's steps are what the methods of TimerFds ensure. */
  ghost predicate Step(w: World, ev: Event, w': World) {
    && WellFormed(w)
    && match ev
       case Created(fd, clockid) =>
         w' == w.(s := w.s.(timers := w.s.timers[fd := Timer(clockid, None, ZERO)],
                            writeEnds := w.s.writeEnds + {fd}, handlers := true),
                  armings := w.armings - {fd})
       case Closed(fd) =>
         w' == w.(s := w.s.(timers := w.s.timers - {fd}, writeEnds := w.s.writeEnds - {fd}),
                  armings := w.armings - {fd})
       case Set(fd, abstime, interval, value) =>
         Valid(interval) && Valid(value) && SetStep(w, fd, abstime, interval, value, w')
       case Fired =>
         && w.s.itimer.Some? && w.s.itimer.value <= Nanos(w.clock.now)
         && w' == w.(s := w.s.(alarm := true, itimer := None))
       case Tick(outcomes) => TickStep(w, outcomes, w')
       case Later(to) =>
         Valid(to) && !Before(to, w.clock.now) && w' == w.(clock := w.clock.(now := to))
  }

  ghost predicate IsRun(ws: seq<World>, evs: seq<Event>) {
    && |ws| == |evs| + 1
    && ws[0] == Initially(ws[0].clock.known)
    && forall i :: 0 <= i < |evs| ==> Step(ws[i], evs[i], ws[i + 1])
  }

  /** Whenever some timer counts towards a deadline, either the alarm is set, or the interval
      timer is armed and goes off by that deadline, or a microsecond after it was set if that
      is later. */
  ghost predicate Armed(w: World) {
    w.s.alarm || Covers(w.s.timers, w.clock.known, w.s.itimer, w.lastArm)
  }

  function Latest(a: int, b: int): int { if a < b then b else a }

  /** An interval timer stands at its first deadline plus a whole number of intervals, the
      periods reported and dropped; a one-shot stands where it was set until its one write. */
  ghost predicate OnSchedule(t: Timer, a: Arming) {
    && t.interval == a.interval
    && (a.first.Some? ==> Valid(a.first.value))
    && if t.interval == ZERO then
         && a.dropped == 0 && a.reported == a.writes <= 1
         && t.deadline == (if a.writes == 1 then None else a.first)
         && (a.writes == 1 ==> a.first.Some?)
       else if a.first.None? then t.deadline.None? && a.reported == 0 && a.dropped == 0
       else t.deadline == Some(Advanced(a.first.value, a.interval, a.reported + a.dropped))
  }

  ghost predicate Scheduled(w: World) {
    forall fd <- w.s.timers ::
      if fd in w.armings then OnSchedule(w.s.timers[fd], w.armings[fd]) else w.s.timers[fd].deadline.None?
  }

  ghost predicate Inv(w: World) {
    && WellFormed(w)
    && w.s.timers.Keys == w.s.writeEnds
    && (w.s.timers != map[] || w.s.itimer.Some? || w.s.alarm ==> w.s.handlers)
    && (w.s.itimer.Some? ==> w.s.itimer.value >= w.lastArm + MICROSECOND)
    && Armed(w)
    && Scheduled(w)
  }

  /** The interval timer's value for the time left goes off by the deadline. */
  lemma LeftCovers(d: Time, now: Time, left: Time)
    requires Valid(d) && Valid(now) && Valid(left) && !Before(Sub(d, now), left)
    ensures Nanos(now) + ItimerNanos(left) <= Latest(Nanos(d), Nanos(now) + MICROSECOND)
  {
    SubIsNanos(d, now);
    OrderIsNanos(Sub(d, now), left);
  }

  lemma SoonestCovers(timers: map<Fd, Timer>, clock: Clock, left: Time, fd: Fd)
    requires Valid(clock.now) && Valid(left) && IsSoonest(timers, clock, left)
    requires fd in timers && Counts(timers[fd], clock) && Valid(timers[fd].deadline.value)
    ensures Nanos(clock.now) + ItimerNanos(left)
            <= Latest(Nanos(timers[fd].deadline.value), Nanos(clock.now) + MICROSECOND)
  {
    LeftCovers(timers[fd].deadline.value, clock.now, left);
  }

  /** Setting the interval timer covers every deadline that counts. */
  ghost predicate Covers(timers: map<Fd, Timer>, known: set<int>, itimer: Option<int>, lastArm: int) {
    forall fd <- timers :: timers[fd].deadline.Some? && timers[fd].clockid in known ==>
                             CoversOne(timers[fd].deadline.value, itimer, lastArm)
  }

  ghost predicate CoversOne(deadline: Time, itimer: Option<int>, lastArm: int) {
    itimer.Some? && itimer.value <= Latest(Nanos(deadline), lastArm + MICROSECOND)
  }

  lemma ArmedForCovers(timers: map<Fd, Timer>, clock: Clock, itimer: Option<int>)
    requires ValidTimers(timers) && Valid(clock.now) && ArmedFor(timers, clock, itimer)
    ensures Covers(timers, clock.known, itimer, Nanos(clock.now))
  {
    if !NoDeadline(timers, clock) {
      var left :| ArmedWith(timers, clock, left, itimer);
      forall fd <- timers | Counts(timers[fd], clock)
        ensures CoversOne(timers[fd].deadline.value, itimer, Nanos(clock.now))
      {
        assert ValidTimer(timers[fd]);
        SoonestCovers(timers, clock, left, fd);
      }
    }
  }

  lemma ArmedForNotEarly(timers: map<Fd, Timer>, clock: Clock, itimer: Option<int>)
    requires ValidTimers(timers) && Valid(clock.now) && ArmedFor(timers, clock, itimer)
    ensures itimer.Some? ==> itimer.value >= Nanos(clock.now) + MICROSECOND && timers != map[]
  {
  }

  lemma SetKeepsInv(w: World, fd: Fd, abstime: bool, interval: Time, value: Time, w': World)
    requires Inv(w) && Valid(interval) && Valid(value) && SetStep(w, fd, abstime, interval, value, w')
    ensures Inv(w')
  {
    if fd in w.s.timers && Settable(w.s.timers[fd], abstime, value, w.clock) {
      AddIsNanos(w.clock.now, value);
      assert ValidTimers(w'.s.timers);
      ArmedForCovers(w'.s.timers, w.clock, w'.s.itimer);
      ArmedForNotEarly(w'.s.timers, w.clock, w'.s.itimer);
    }
  }

  /** What a tick does to the schedule of one timer. */
  lemma ServedOnSchedule(t: Timer, a: Arming, now: Time, outcome: WriteOutcome)
    requires ValidTimer(t) && Valid(now) && Due(t, now) && OnSchedule(t, a) && !outcome.ReaderGone?
    ensures OnSchedule(Served(t, now, outcome).value, Accounted(a, t, now, outcome))
  {
    if t.interval != ZERO {
      AdvancedTwice(a.first.value, a.interval, a.reported + a.dropped, PeriodsDue(t, now));
    }
  }

  lemma TickKeepsSchedule(w: World, outcomes: map<Fd, WriteOutcome>, w': World)
    requires Inv(w) && w.s.alarm && TickStep(w, outcomes, w')
    ensures Scheduled(w')
  {
    forall fd <- w'.s.timers
      ensures if fd in w'.armings then OnSchedule(w'.s.timers[fd], w'.armings[fd]) else w'.s.timers[fd].deadline.None?
    {
      var t := w.s.timers[fd];
      assert ValidTimer(t);
      assert Ticked(w.s, fd, w.clock, outcomes) == Some(w'.s.timers[fd]);
      if fd in w.armings && Serves(t, w.clock) {
        ServedOnSchedule(t, w.armings[fd], w.clock.now, OutcomeOf(outcomes, fd));
      }
    }
  }

  lemma TickKeepsInv(w: World, outcomes: map<Fd, WriteOutcome>, w': World)
    requires Inv(w) && TickStep(w, outcomes, w')
    ensures Inv(w')
  {
    if w.s.alarm {
      TickedStaysValid(w.s, w'.s, w.clock, outcomes);
      ArmedForCovers(w'.s.timers, w.clock, w'.s.itimer);
      ArmedForNotEarly(w'.s.timers, w.clock, w'.s.itimer);
      TickKeepsSchedule(w, outcomes, w');
      forall fd ensures fd in w'.s.timers.Keys <==> fd in w'.s.writeEnds {
        assert fd in w.s.timers.Keys <==> fd in w.s.writeEnds;
      }
    }
  }

  lemma StepKeepsInv(w: World, ev: Event, w': World)
    requires Inv(w) && Step(w, ev, w')
    ensures Inv(w')
  {
    match ev
    case Set(fd, abstime, interval, value) => SetKeepsInv(w, fd, abstime, interval, value, w');
    case Tick(outcomes) => TickKeepsInv(w, outcomes, w');
    case Created(fd, _) => assert w'.s.timers.Keys == w.s.timers.Keys + {fd};
    case Closed(fd) => assert w'.s.timers.Keys == w.s.timers.Keys - {fd};
    case Fired =>
    case Later(_) =>
  }

  lemma {:induction false} RunKeepsInv(ws: seq<World>, evs: seq<Event>, i: nat)
    requires IsRun(ws, evs) && i < |ws|
    ensures Inv(ws[i])
  {
    if i > 0 {
      RunKeepsInv(ws, evs, i - 1);
      StepKeepsInv(ws[i - 1], evs[i - 1], ws[i]);
    }
  }

  /** The alarm is set, or the interval timer goes off in time, with its handler in place. */
  ghost predicate InTime(w: World, deadline: Time) {
    && w.s.handlers
    && (w.s.alarm
        || (w.s.itimer.Some? && w.lastArm + MICROSECOND <= w.s.itimer.value
            && w.s.itimer.value <= Latest(Nanos(deadline), w.lastArm + MICROSECOND)))
  }

  /** No deadline is forgotten that counts by a clock which can be read: in every reachable state
      such a one has the alarm set or an interval timer that goes off in time, with its handler
      in place. */
  lemma DeadlinesAreCovered(ws: seq<World>, evs: seq<Event>, i: nat, fd: Fd)
    requires IsRun(ws, evs) && i < |ws|
    requires fd in ws[i].s.timers && Counts(ws[i].s.timers[fd], ws[i].clock)
    ensures InTime(ws[i], ws[i].s.timers[fd].deadline.value)
  {
    RunKeepsInv(ws, evs, i);
    InTimeWhenInv(ws[i], fd);
  }

  lemma InTimeWhenInv(w: World, fd: Fd)
    requires Inv(w) && fd in w.s.timers && Counts(w.s.timers[fd], w.clock)
    ensures InTime(w, w.s.timers[fd].deadline.value)
  {
  }

  /** In every run of a tracer with these clocks every pending deadline of a timer by this clock
      is covered. */
  ghost predicate AlwaysCovered(known: set<int>, id: int) {
    forall ws: seq<World>, evs: seq<Event>, i, fd ::
      IsRun(ws, evs) && ws[0].clock.known == known && 0 <= i < |ws| && PendingBy(ws[i], fd, id) ==>
        InTime(ws[i], ws[i].s.timers[fd].deadline.value)
  }

  predicate Pending(timers: map<Fd, Timer>, fd: Fd) { fd in timers && timers[fd].deadline.Some? }

  predicate PendingBy(w: World, fd: Fd, id: int) { Pending(w.s.timers, fd) && w.s.timers[fd].clockid == id }

  lemma {:induction false} KnownStays(ws: seq<World>, evs: seq<Event>, i: nat)
    requires IsRun(ws, evs) && i < |ws|
    ensures ws[i].clock.known == ws[0].clock.known
  {
    if i > 0 {
      KnownStays(ws, evs, i - 1);
      assert Step(ws[i - 1], evs[i - 1], ws[i]);
    }
  }

  /** A timer by a clock that cannot be read is made, and set to a point in time, and then nothing
      is armed for it. */
  lemma UnreadableIsForgotten(known: set<int>, id: int)
    requires id !in known
    ensures !AlwaysCovered(known, id)
  {
    var value := Time(1, 0);
    var w0 := Initially(known);
    var w1 := w0.(s := w0.s.(timers := map[3 := Timer(id, None, ZERO)], writeEnds := {3}, handlers := true));
    var w2 := w1.(s := w1.s.(timers := map[3 := Timer(id, Some(value), ZERO)]),
                  armings := map[3 := Arming(Some(value), ZERO, 0, 0, 0)]);
    var ws, evs := [w0, w1, w2], [Created(3, id), Set(3, true, ZERO, value)];
    assert Step(w0, evs[0], w1) && Step(w1, evs[1], w2);
    assert IsRun(ws, evs) && PendingBy(ws[2], 3, id);
  }

  /** So a clock's deadlines are covered in every run exactly when that clock can be read. */
  lemma CoveredExactlyWhen(known: set<int>, id: int)
    ensures AlwaysCovered(known, id) <==> id in known
  {
    hide Step;
    hide InTime;
    if id in known {
      forall ws: seq<World>, evs: seq<Event>, i, fd
        | IsRun(ws, evs) && ws[0].clock.known == known && 0 <= i < |ws| && PendingBy(ws[i], fd, id)
        ensures InTime(ws[i], ws[i].s.timers[fd].deadline.value)
      {
        KnownStays(ws, evs, i);
        DeadlinesAreCovered(ws, evs, i, fd);
      }
    } else {
      UnreadableIsForgotten(known, id);
    }
  }

  /** A timer is tracked exactly when its write end is held. */
  lemma KeysAgree(ws: seq<World>, evs: seq<Event>, i: nat)
    requires IsRun(ws, evs) && i < |ws|
    ensures ws[i].s.timers.Keys == ws[i].s.writeEnds
  {
    RunKeepsInv(ws, evs, i);
  }

  /** An interval timer never drifts. */
  lemma NeverDrifts(ws: seq<World>, evs: seq<Event>, i: nat, fd: Fd)
    requires IsRun(ws, evs) && i < |ws|
    requires fd in ws[i].s.timers && ws[i].s.timers[fd].interval != ZERO && ws[i].s.timers[fd].deadline.Some?
    ensures fd in ws[i].armings && Undrifted(ws[i].s.timers[fd], ws[i].armings[fd])
  {
    RunKeepsInv(ws, evs, i);
    UndriftedWhenInv(ws[i], fd);
  }

  /** The deadline is the first one plus a whole number of intervals: those reported and those
      dropped. */
  predicate Undrifted(t: Timer, a: Arming)
    requires t.deadline.Some?
  {
    && a.first.Some? && a.interval == t.interval
    && Nanos(t.deadline.value) == Nanos(a.first.value) + (a.reported + a.dropped) * Nanos(a.interval)
  }

  lemma UndriftedWhenInv(w: World, fd: Fd)
    requires Inv(w) && fd in w.s.timers && w.s.timers[fd].interval != ZERO && w.s.timers[fd].deadline.Some?
    ensures fd in w.armings && Undrifted(w.s.timers[fd], w.armings[fd])
  {
    var a := w.armings[fd];
    assert ValidTimer(w.s.timers[fd]);
    AdvancedIsNanos(a.first.value, a.interval, a.reported + a.dropped);
  }

  /** Once a due interval timer has been served without hitting the cap, the periods
      accounted for are exactly those that have ended since it was set. */
  lemma TickCatchesUp(w: World, outcomes: map<Fd, WriteOutcome>, w': World, fd: Fd)
    requires Inv(w) && w.s.alarm && TickStep(w, outcomes, w')
    requires fd in w.s.timers && fd in w'.s.timers && w.s.timers[fd].interval != ZERO && Serves(w.s.timers[fd], w.clock)
    requires ValidTimer(w.s.timers[fd]) && PeriodsDue(w.s.timers[fd], w.clock.now) < U32_MAX
    ensures fd in w'.armings && w'.armings[fd].first.Some?
    ensures var a := w'.armings[fd];
            var since := Nanos(w.clock.now) - Nanos(a.first.value);
            Nanos(a.interval) > 0 && a.reported + a.dropped == since / Nanos(a.interval) + 1
  {
    DueIsScheduled(w, fd);
    assert Ticked(w.s, fd, w.clock, outcomes) == Some(w'.s.timers[fd]);
    assert w'.armings[fd] == AccountedFor(w, fd, outcomes);
    ServedCatchesUp(w.s.timers[fd], w.armings[fd], w.clock.now, OutcomeOf(outcomes, fd));
  }

  /** A tick leaves no deadline of a readable clock behind that has come, that very moment included: but
      for a one-shot whose pipe had no room, and a timer with more periods to catch up with than the
      loop counts. */
  lemma TickLeavesNoneDue(w: World, outcomes: map<Fd, WriteOutcome>, w': World, fd: Fd)
    requires Inv(w) && w.s.alarm && TickStep(w, outcomes, w') && fd in w.s.timers && fd in w'.s.timers
    requires w'.s.timers[fd].deadline.Some? && w'.s.timers[fd].clockid in w.clock.known
    requires w.s.timers[fd].interval == ZERO ==> OutcomeOf(outcomes, fd) != Retry
    requires w.s.timers[fd].deadline.Some? ==> PeriodsDue(w.s.timers[fd], w.clock.now) < U32_MAX
    ensures Nanos(w.clock.now) < Nanos(w'.s.timers[fd].deadline.value)
  {
    var t := w.s.timers[fd];
    assert Ticked(w.s, fd, w.clock, outcomes) == Some(w'.s.timers[fd]) && ValidTimer(t);
    hide Inv;
    hide TickStep;
    if Serves(t, w.clock) {
      ServedIsAhead(t, w.clock.now, OutcomeOf(outcomes, fd));
    } else {
      OrderIsNanos(w.clock.now, t.deadline.value);
    }
  }

  lemma ServedIsAhead(t: Timer, now: Time, outcome: WriteOutcome)
    requires ValidTimer(t) && Valid(now) && Due(t, now) && (t.interval == ZERO ==> outcome != Retry)
    requires PeriodsDue(t, now) < U32_MAX
    ensures var next := Served(t, now, outcome);
            next.Some? && next.value.deadline.Some? ==> Nanos(now) < Nanos(next.value.deadline.value)
  {
    if t.interval != ZERO {
      PeriodsHaveEnded(t, now);
      NextIsNext(t, now);
    }
  }

  lemma DueIsScheduled(w: World, fd: Fd)
    requires Inv(w) && fd in w.s.timers && w.s.timers[fd].deadline.Some?
    ensures fd in w.armings && OnSchedule(w.s.timers[fd], w.armings[fd]) && fd in w.s.writeEnds
  {
  }

  lemma ServedCatchesUp(t: Timer, a: Arming, now: Time, outcome: WriteOutcome)
    requires ValidTimer(t) && Valid(now) && Due(t, now) && OnSchedule(t, a) && t.interval != ZERO
    requires !outcome.ReaderGone?
    requires PeriodsDue(t, now) < U32_MAX
    ensures var a' := Accounted(a, t, now, outcome);
            var since := Nanos(now) - Nanos(a.first.value);
            Nanos(a.interval) > 0 && a'.reported + a'.dropped == since / Nanos(a.interval) + 1
  {
    var k, more := a.reported + a.dropped, PeriodsDue(t, now);
    OrderIsNanos(a.interval, ZERO);
    OrderIsNanos(now, t.deadline.value);
    AdvancedIsNanos(a.first.value, a.interval, k);
    NextIsNext(t, now);
    PeriodsSinceFirst(Nanos(a.first.value), Nanos(a.interval), Nanos(now), k, more);
  }

  lemma PeriodsSinceFirst(first: int, period: int, now: int, k: nat, more: nat)
    requires period > 0 && first + k * period <= now
    requires now < first + k * period + more * period <= now + period
    ensures k + more == (now - first) / period + 1
  {
    MulMonotone(0, k, period);
    MulMonotone(more, 0, period);
    assert k * period + more * period == (k + more) * period;
    assert (k + more - 1) * period == (k + more) * period - period;
    PeriodsUnique(now - first, period, k + more - 1);
  }

  /** A one-shot arming is reported by at most one successful write, of one expiration. */
  lemma OneShotReportsOnce(ws: seq<World>, evs: seq<Event>, i: nat, fd: Fd)
    requires IsRun(ws, evs) && i < |ws|
    requires fd in ws[i].s.timers && fd in ws[i].armings && ws[i].s.timers[fd].interval == ZERO
    ensures ws[i].armings[fd].writes <= 1 && ws[i].armings[fd].reported == ws[i].armings[fd].writes
    ensures ws[i].s.timers[fd].deadline.Some? ==> ws[i].armings[fd].writes == 0
  {
    RunKeepsInv(ws, evs, i);
  }

  /** A write that ends a timer's deadline: one made because the timer is due, and of a
      one-shot that went through, or into a pipe that nobody reads any more. */
  predicate WriteEnds(t: Timer, clock: Clock, outcome: WriteOutcome) {
    && Serves(t, clock)
    && match outcome
       case Written => t.interval == ZERO
       case Retry => false
       case ReaderGone => true
  }

  /** What ends a pending deadline. */
  ghost predicate EndsDeadline(w: World, ev: Event, fd: Fd) {
    match ev
    case Created(g, _) => g == fd
    case Closed(g) => g == fd
    case Set(g, _, _, value) => g == fd && value == ZERO
    case Tick(outcomes) => w.s.alarm && fd in w.s.timers && WriteEnds(w.s.timers[fd], w.clock, OutcomeOf(outcomes, fd))
    case Fired => false
    case Later(_) => false
  }

  /** A deadline goes away exactly through an eight-byte write for a one-shot that is due, a
      vanished reader, a close, a new setting, or a new pipe on the same fd. In particular no
      tick ends the deadline of a timer that is not due, a write that has to be retried keeps
      it, and an interval timer has one after every successful write. */
  lemma DeadlineIsNotLost(ws: seq<World>, evs: seq<Event>, i: nat, fd: Fd)
    requires IsRun(ws, evs) && i < |evs| && Pending(ws[i].s.timers, fd)
    ensures EndsDeadline(ws[i], evs[i], fd) <==> !Pending(ws[i + 1].s.timers, fd)
  {
    RunKeepsInv(ws, evs, i);
    StepEndsDeadline(ws[i], evs[i], ws[i + 1], fd);
  }

  lemma StepEndsDeadline(w: World, ev: Event, w': World, fd: Fd)
    requires Inv(w) && Step(w, ev, w') && Pending(w.s.timers, fd)
    ensures EndsDeadline(w, ev, fd) <==> !Pending(w'.s.timers, fd)
  {
    if ev.Tick? && w.s.alarm {
      assert fd in w.s.writeEnds;
    }
  }
}
