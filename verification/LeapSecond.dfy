/** Leap events: at most one is pending; it is scheduled for a minute boundary and handed to the
    clock once when due (section 11.4 of RFC 5905). */
module LeapSecond {
  import opened Words

  const LEAP_POSITIVE := 1
  const LEAP_NEGATIVE := 2
  const CHECK_INTERVAL_SEC := 300
  const EVENT_INTERVAL_SEC := 60
  const PENDING_US := 60000000

  datatype LeapState = LeapState(scheduled: bool, pendingOffsetUs: int, pendingDir: u8, eventTime: int, interval: int)

  /** The state after initialisation. */
  function Initial(): LeapState {
    LeapState(false, 0, 0, 0, EVENT_INTERVAL_SEC)
  }

  /** The end of the current minute; zero when the clock cannot be read. */
  function EndOfMinute(clock: Option<int>): int {
    match clock
    case None => 0
    case Some(now) => now + (60 - TruncMod(now, 60))
  }

  function OffsetOf(dir: u8): int {
    if dir == LEAP_POSITIVE then PENDING_US else -PENDING_US
  }

  /** Whether a request to schedule is accepted. */
  predicate Accepts(s: LeapState, clock: Option<int>) {
    !s.scheduled && EndOfMinute(clock) != 0
  }

  /** When a newly scheduled event is due: one interval before the end of the minute, or, that
      moment having passed, one interval after it. */
  function EventTime(s: LeapState, clock: Option<int>, now: int): int {
    var before := EndOfMinute(clock) - s.interval;
    if before <= now then EndOfMinute(clock) + s.interval else before
  }

  function Scheduled(s: LeapState, dir: u8, clock: Option<int>, now: int): LeapState {
    if Accepts(s, clock)
    then LeapState(true, OffsetOf(dir), dir, EventTime(s, clock, now), s.interval)
    else s
  }

  predicate Due(s: LeapState, now: int) {
    s.scheduled && now >= s.eventTime
  }

  function Applied(s: LeapState, now: int): LeapState {
    if Due(s, now) then s.(scheduled := false, pendingOffsetUs := 0, pendingDir := 0) else s
  }

  /** The periodic test of a pending event: the time is read once to test it and again when
      applying it. */
  function Checked(s: LeapState, now: int, later: int): LeapState {
    if Due(s, now) then Applied(s, later) else s
  }

  // ---------- the leap file ----------

  /** What the file system and the calendar answer when the file of the day is looked up. */
  datatype LeapFile = NoDate | NoName | Missing | Unopened | Unreadable | Direction(dir: u8)

  /** What governs the next look at the file. */
  datatype FileState = FileState(initialized: bool, lastCheck: int, interval: int)

  /** How a look at the file ends. */
  datatype FileCheck = Failed | TooSoon | Nothing | Announces(dir: u8)

  function CheckedFile(f: FileState, now: int, file: LeapFile): FileCheck {
    if !f.initialized then Failed
    else if now - f.lastCheck < f.interval then TooSoon
    else match file
      case Missing => Nothing
      case Direction(dir) => if dir == LEAP_POSITIVE || dir == LEAP_NEGATIVE then Announces(dir) else Failed
      case _ => Failed
  }

  function AfterFile(s: LeapState, v: FileCheck, clock: Option<int>, at: int): LeapState {
    if v.Announces? then Scheduled(s, v.dir, clock, at) else s
  }

  function FilesAfter(f: FileState, v: FileCheck, now: int): FileState {
    if v.Nothing? || v.Announces? then f.(lastCheck := now) else f
  }

  /** After a look at the file that did not fail, the next one within 300 s does nothing; a file
      announces a leap exactly when it holds a 1 or a 2, and the leap it announces is that one. */
  lemma FileLookedAtRarely(f: FileState, now: int, file: LeapFile, later: int, other: LeapFile)
    requires f.interval == 300
    ensures var v := CheckedFile(f, now, file);
      && (v.Announces? <==> f.initialized && now - f.lastCheck >= 300 && (file == Direction(1) || file == Direction(2)))
      && (v.Announces? ==> v.dir == file.dir)
      && (v == Failed <==>
            !f.initialized || (now - f.lastCheck >= 300 && !(file in {Missing, Direction(1), Direction(2)})))
      && (v.Failed? ==> FilesAfter(f, v, now) == f)
      && ((v.Nothing? || v.Announces?) && later < now + 300 ==>
            CheckedFile(FilesAfter(f, v, now), later, other) == TooSoon)
      && (v == TooSoon <==> f.initialized && now - f.lastCheck < 300)
  {
  }

  class LeapSeconds {
    var initialized: bool
    var lastCheckTime: int
    var checkIntervalSec: int
    var eventScheduled: bool
    var pendingOffsetUs: int
    var pendingLeapDir: u8
    var eventTime: int
    var eventIntervalSec: int

    ghost function State(): LeapState
      reads this
    {
      LeapState(eventScheduled, pendingOffsetUs, pendingLeapDir, eventTime, eventIntervalSec)
    }

    ghost function Files(): FileState
      reads this
    {
      FileState(initialized, lastCheckTime, checkIntervalSec)
    }

    constructor ()
      ensures State() == Initial() == LeapState(false, 0, 0, 0, 60) && Files() == FileState(true, 0, 300)
    {
      lastCheckTime, checkIntervalSec := 0, CHECK_INTERVAL_SEC;
      initialized, eventScheduled, pendingOffsetUs, pendingLeapDir := true, false, 0, 0;
      eventTime, eventIntervalSec := 0, EVENT_INTERVAL_SEC;
    }

    method ScheduleEvent(dir: u8, clock: Option<int>, now: int) returns (rc: int)
      modifies this
      ensures State() == Scheduled(old(State()), dir, clock, now) && Files() == old(Files())
      ensures rc == if Accepts(old(State()), clock) then 0 else -1
      ensures rc == 0 ==> eventScheduled && pendingOffsetUs == (if dir == 1 then 60000000 else -60000000)
    {
      if eventScheduled {
        return -1;
      }
      var endOfMinute := EndOfMinute(clock);
      if endOfMinute == 0 {
        return -1;
      }
      var at := endOfMinute - eventIntervalSec;
      if at <= now {
        at := endOfMinute + eventIntervalSec;
      }
      pendingOffsetUs := if dir == LEAP_POSITIVE then PENDING_US else -PENDING_US;
      pendingLeapDir := dir;
      eventTime := at;
      eventScheduled := true;
      return 0;
    }

    /** Hands the pending offset to the clock if it is due, and clears it whatever the clock
        answers. */
    method ApplyCorrection(now: int, clockResult: int) returns (rc: int, handed: Option<int>)
      modifies this
      ensures State() == Applied(old(State()), now) && Files() == old(Files())
      ensures handed == if Due(old(State()), now) then Some(old(pendingOffsetUs)) else None
      ensures rc == if Due(old(State()), now) then clockResult else -1
    {
      if !eventScheduled {
        return -1, None;
      }
      if now < eventTime {
        return -1, None;
      }
      var offsetUs := pendingOffsetUs;
      pendingOffsetUs := 0;
      pendingLeapDir := 0;
      eventScheduled := false;
      return clockResult, Some(offsetUs);
    }

    /** Looks at the leap file of the day, at most once per interval, and schedules what it
        announces.  An event that cannot be scheduled is not an error. */
    method CheckFile(now: int, file: LeapFile, clock: Option<int>, at: int) returns (rc: int)
      modifies this
      ensures
        var v := CheckedFile(old(Files()), now, file);
        && rc == (if v.Failed? then -1 else 0)
        && State() == AfterFile(old(State()), v, clock, at)
        && Files() == FilesAfter(old(Files()), v, now)
    {
      if !initialized {
        return -1;
      }
      if now - lastCheckTime < checkIntervalSec {
        return 0;
      }
      match file {
        case NoDate | NoName | Unopened | Unreadable =>
          return -1;
        case Direction(dir) =>
          if dir != LEAP_POSITIVE && dir != LEAP_NEGATIVE {
            return -1;
          }
          var _ := ScheduleEvent(dir, clock, at);
        case Missing =>
      }
      lastCheckTime := now;
      return 0;
    }

    /** The periodic check of a pending event. */
    method CheckAndApply(now: int, later: int, clockResult: int) returns (handed: Option<int>)
      modifies this
      ensures State() == Checked(old(State()), now, later) && Files() == old(Files())
      ensures handed ==
        if Due(old(State()), now) && Due(old(State()), later) then Some(old(pendingOffsetUs)) else None
    {
      handed := None;
      if eventScheduled {
        if now >= eventTime {
          var result;
          result, handed := ApplyCorrection(later, clockResult);
        }
      }
    }

    method Cleanup()
      modifies this
      ensures !initialized && !eventScheduled && pendingOffsetUs == 0 && pendingLeapDir == 0 && eventTime == 0
      ensures lastCheckTime == 0
      ensures eventIntervalSec == old(eventIntervalSec) && checkIntervalSec == old(checkIntervalSec)
    {
      lastCheckTime := 0;
      initialized, pendingOffsetUs, pendingLeapDir, eventScheduled, eventTime := false, 0, 0, false, 0;
    }
  }

  // ---------- runs ----------

  /** A request to schedule, whose clock is read twice, or an attempt to apply. */
  datatype Event =
    | Schedule(dir: u8, clock: Option<int>, now: int)
    | Apply(now: int)

  /** One accepted leap event: its offset and its time. */
  datatype Leap = Leap(offsetUs: int, at: int)

  /** One hand-over to the clock: the offset and when it happened. */
  datatype Handover = Handover(offsetUs: int, now: int)

  function After(run: seq<Event>): LeapState {
    if run == [] then Initial()
    else
      var s := After(run[..|run|-1]);
      match run[|run|-1]
      case Schedule(dir, clock, now) => Scheduled(s, dir, clock, now)
      case Apply(now) => Applied(s, now)
  }

  /** The accepted events of a run, in order. */
  function Accepted(run: seq<Event>): seq<Leap> {
    if run == [] then []
    else
      var rest, e := run[..|run|-1], run[|run|-1];
      var s := After(rest);
      if e.Schedule? && Accepts(s, e.clock)
      then Accepted(rest) + [Leap(OffsetOf(e.dir), EventTime(s, e.clock, e.now))]
      else Accepted(rest)
  }

  /** The corrections handed to the clock, in order. */
  function Handed(run: seq<Event>): seq<Handover> {
    if run == [] then []
    else
      var rest, e := run[..|run|-1], run[|run|-1];
      var s := After(rest);
      if e.Apply? && Due(s, e.now) then Handed(rest) + [Handover(s.pendingOffsetUs, e.now)] else Handed(rest)
  }

  /** The directions of the requests that were accepted, in order. */
  function Directions(run: seq<Event>): seq<u8> {
    if run == [] then []
    else
      var rest, e := run[..|run|-1], run[|run|-1];
      if e.Schedule? && Accepts(After(rest), e.clock) then Directions(rest) + [e.dir] else Directions(rest)
  }

  function SumAccepted(l: seq<Leap>): int {
    if l == [] then 0 else SumAccepted(l[..|l|-1]) + l[|l|-1].offsetUs
  }

  function SumHanded(l: seq<Handover>): int {
    if l == [] then 0 else SumHanded(l[..|l|-1]) + l[|l|-1].offsetUs
  }

  /** A run with one more event. */
  lemma OneMore(run: seq<Event>, e: Event)
    ensures After(run + [e]) ==
      if e.Schedule? then Scheduled(After(run), e.dir, e.clock, e.now) else Applied(After(run), e.now)
    ensures Handed(run + [e]) ==
      if e.Apply? && Due(After(run), e.now) then Handed(run) + [Handover(After(run).pendingOffsetUs, e.now)]
      else Handed(run)
  {
    assert (run + [e])[..|run|] == run;
  }

  /** Each accepted event is handed over at most once, in order, unchanged and never before its
      time; at any moment all of them have been handed over except the one that is pending. */
  lemma {:induction false} HandedOnceAndOnTime(run: seq<Event>)
    ensures var a, h, s := Accepted(run), Handed(run), After(run);
      && |a| == |h| + (if s.scheduled then 1 else 0)
      && (forall i | 0 <= i < |h| :: h[i].offsetUs == a[i].offsetUs && h[i].now >= a[i].at)
      && (if s.scheduled then a[|h|] == Leap(s.pendingOffsetUs, s.eventTime) else s.pendingOffsetUs == 0)
  {
    if run != [] {
      HandedOnceAndOnTime(run[..|run|-1]);
    }
  }

  /** Conservation: what was handed to the clock plus what is pending is the sum of what was
      accepted. */
  lemma {:induction false} OffsetsConserved(run: seq<Event>)
    ensures SumHanded(Handed(run)) + After(run).pendingOffsetUs == SumAccepted(Accepted(run))
  {
    if run != [] {
      var rest := run[..|run|-1];
      OffsetsConserved(rest);
      HandedOnceAndOnTime(rest);
      var a, h := Accepted(run), Handed(run);
      assert |a| > |Accepted(rest)| ==> a[..|a|-1] == Accepted(rest);
      assert |h| > |Handed(rest)| ==> h[..|h|-1] == Handed(rest);
    }
  }

  /** The sign survives: the i-th correction handed to the clock is 60 s forward exactly when the i-th
      accepted request asked for direction 1, and 60 s back otherwise; so is the pending one. */
  lemma {:induction false} SignReachesClock(run: seq<Event>)
    ensures var a, h, s, dirs := Accepted(run), Handed(run), After(run), Directions(run);
      && |dirs| == |a| == |h| + (if s.scheduled then 1 else 0)
      && (forall i | 0 <= i < |a| :: a[i].offsetUs == if dirs[i] == 1 then 60000000 else -60000000)
      && (forall i | 0 <= i < |h| :: h[i].offsetUs == if dirs[i] == 1 then 60000000 else -60000000)
      && (s.scheduled ==> s.pendingOffsetUs == (if dirs[|h|] == 1 then 60000000 else -60000000))
  {
    HandedOnceAndOnTime(run);
    if run != [] {
      SignReachesClock(run[..|run|-1]);
    }
  }

  lemma {:induction false} DirectionsAsked(run: seq<Event>)
    ensures forall dir | dir in Directions(run) :: exists e :: e in run && e.Schedule? && e.dir == dir
  {
    if run != [] {
      DirectionsAsked(run[..|run|-1]);
      assert run == run[..|run|-1] + [run[|run|-1]];
    }
  }

  /** How many of the accepted requests asked for direction 1. */
  function Positive(dirs: seq<u8>): nat {
    if dirs == [] then 0 else Positive(dirs[..|dirs|-1]) + (if dirs[|dirs|-1] == 1 then 1 else 0)
  }

  /** Handed plus pending is a minute for each accepted positive leap less a minute for each other. */
  lemma MinutesConserved(run: seq<Event>)
    ensures SumHanded(Handed(run)) + After(run).pendingOffsetUs ==
      60000000 * (2 * Positive(Directions(run)) - |Directions(run)|)
  {
    OffsetsConserved(run);
    SignReachesClock(run);
    SumOfSigns(Accepted(run), Directions(run));
  }

  lemma {:induction false} SumOfSigns(a: seq<Leap>, dirs: seq<u8>)
    requires |a| == |dirs|
    requires forall i | 0 <= i < |a| :: a[i].offsetUs == if dirs[i] == 1 then 60000000 else -60000000
    ensures SumAccepted(a) == 60000000 * (2 * Positive(dirs) - |dirs|)
  {
    if a != [] {
      SumOfSigns(a[..|a|-1], dirs[..|a|-1]);
    }
  }

  /** The clock readings of a run are sensible: never negative, and the second reading of a
      scheduling request is not before the first. */
  ghost predicate Sensible(run: seq<Event>) {
    forall i | 0 <= i < |run| ::
      run[i].Schedule? && run[i].clock.Some? ==> 0 <= run[i].clock.value <= run[i].now
  }

  lemma {:induction false} IntervalFixed(run: seq<Event>)
    ensures After(run).interval == EVENT_INTERVAL_SEC
  {
    if run != [] {
      IntervalFixed(run[..|run|-1]);
    }
  }

  /** Every accepted event is due at a minute boundary between 61 and 120 seconds after the
      moment it was scheduled: the announced 60 seconds before the end of the minute have always
      passed. */
  lemma AcceptedTime(run: seq<Event>, dir: u8, now: int, later: int)
    requires 0 <= now <= later
    ensures var s := After(run);
      !s.scheduled ==>
        && Accepts(s, Some(now))
        && Scheduled(s, dir, Some(now), later).eventTime % 60 == 0
        && now + 61 <= Scheduled(s, dir, Some(now), later).eventTime <= now + 120
  {
    IntervalFixed(run);
  }

  /** The event was asked for by some request of the run, whose clock read 61 to 120 seconds before
      the event is due. */
  ghost predicate AskedInTime(l: Leap, run: seq<Event>) {
    exists k :: 0 <= k < |run| && AsksFor(run[k], l)
  }

  predicate AsksFor(e: Event, l: Leap) {
    && e.Schedule? && e.clock.Some? && l.offsetUs == (if e.dir == 1 then 60000000 else -60000000)
    && e.clock.value + 61 <= l.at <= e.clock.value + 120
  }

  /** In every run each accepted event is due at a minute boundary, 61 to 120 seconds after the clock
      reading of the request that asked for it, and carries 60 seconds one way or the other. */
  lemma {:induction false} AcceptedAtMinuteBoundaries(run: seq<Event>)
    requires Sensible(run)
    ensures forall i | 0 <= i < |Accepted(run)| ::
        && Accepted(run)[i].at % 60 == 0
        && Accepted(run)[i].offsetUs in {60000000, -60000000}
        && AskedInTime(Accepted(run)[i], run)
  {
    hide AsksFor, Scheduled, EventTime;
    if run != [] {
      var n := |run| - 1;
      var rest, e := run[..n], run[n];
      AcceptedAtMinuteBoundaries(rest);
      forall l | AskedInTime(l, rest) ensures AskedInTime(l, run) {
        var k :| 0 <= k < n && AsksFor(rest[k], l);
        assert AsksFor(run[k], l);
      }
      if e.Schedule? && Accepts(After(rest), e.clock) {
        NewLeapInTime(rest, e);
        assert AskedInTime(Leap(OffsetOf(e.dir), EventTime(After(rest), e.clock, e.now)), run);
      }
    }
  }

  lemma NewLeapInTime(rest: seq<Event>, e: Event)
    requires e.Schedule? && e.clock.Some? && 0 <= e.clock.value <= e.now && Accepts(After(rest), e.clock)
    ensures var l := Leap(OffsetOf(e.dir), EventTime(After(rest), e.clock, e.now));
      l.at % 60 == 0 && AsksFor(e, l)
  {
    AcceptedTime(rest, e.dir, e.clock.value, e.now);
  }
}
