/** Whole runs of the daemon: any sequence of replies and requests, interleaved, with the access
    rules free to change in between.  A run is a run of each of the parts, so what was proved of
    those holds of the daemon. */
module DaemonRuns {
  import opened Words
  import opened Wire
  import opened Synchronization
  import opened D = Daemon
  import LeapSecond
  import RateLimit

  datatype Operation =
    | Reply(sync: Sync, warning: LeapClock, check: LeapCheck)
    | Request(rules: Rules, query: Query)

  function Next(d: DaemonState, o: Operation): (r: DaemonState)
    requires d.Valid()
    ensures r.Valid()
  {
    match o
    case Reply(e, c, k) => d.(client := AfterReply(d.client, e, c, k))
    case Request(r, q) => AfterRequest(d, r, q)
  }

  function After(d: DaemonState, run: seq<Operation>): (r: DaemonState)
    requires d.Valid()
    ensures r.Valid()
  {
    if run == [] then d else Next(After(d, run[..|run|-1]), run[|run|-1])
  }

  // ---------- syncs ----------

  function Syncs(run: seq<Operation>): seq<Sync> {
    if run == [] then []
    else
      var rest, o := Syncs(run[..|run|-1]), run[|run|-1];
      if o.Reply? then rest + [o.sync] else rest
  }

  /** Requests leave the system state and the pool alone: they are what the syncs among the
      operations make them. */
  lemma {:induction false} WorldIsSyncRun(d: DaemonState, run: seq<Operation>)
    requires d.Valid()
    ensures After(d, run).client.world == WorldAfter(d.client.world, Syncs(run))
  {
    if run != [] {
      var rest, o := run[..|run|-1], run[|run|-1];
      WorldIsSyncRun(d, rest);
      if o.Reply? {
        assert (Syncs(rest) + [o.sync])[..|Syncs(rest)|] == Syncs(rest);
      }
    }
  }

  /** So over every run, requests included, synchronised implies stratum 2 to 15 and leap indicator
      0 to 2. */
  lemma DaemonStaysConsistent(d: DaemonState, run: seq<Operation>)
    requires d.Valid() && Consistent(d.client.world.sys)
    ensures Consistent(After(d, run).client.world.sys)
  {
    WorldIsSyncRun(d, run);
    RunStaysConsistent(d.client.world, Syncs(run));
  }

  /** What the daemon announces after any run is decided by the last reply, of those that were accepted
      or refused on their measurement: the leap indicator of an accepted one and one stratum more than
      its own, 15 at most; otherwise the alarm and stratum 16. */
  lemma LastReplyIsAnnounced(d: DaemonState, run: seq<Operation>, i: nat, precision: i8, req: Header,
                             broadcastMode: bool, t2: Timestamp, t3: Timestamp)
    requires d.Valid() && Consistent(d.client.world.sys)
    requires i < |Syncs(run)| && Decides(OutcomeAt(d.client.world, Syncs(run), i))
    requires forall j | i < j < |Syncs(run)| :: !Decides(OutcomeAt(d.client.world, Syncs(run), j))
    ensures var a := Answer(After(d, run).client.world.sys, precision, req, broadcastMode, t2, t3);
      var reply := Syncs(run)[i].reply;
      if OutcomeAt(d.client.world, Syncs(run), i).Accepted?
      then |reply| >= 48 && a.stratum == Min(15, reply[1] + 1) && a.Li() == reply[0] / 64 && a.Li() != 3
      else a.stratum == 16 && a.Li() == 3
  {
    hide Answer, Syncs, OutcomeAt, Decides, After;
    WorldIsSyncRun(d, run);
    DaemonStaysConsistent(d, run);
    LastReplyDecides(d.client.world, Syncs(run), i);
    AnswerOutright(After(d, run).client.world.sys, precision, req, broadcastMode, t2, t3);
  }

  // ---------- leap events ----------

  /** The leap requests and hand-overs of one operation, in order. */
  function EventsOf(d: DaemonState, o: Operation): seq<LeapSecond.Event>
    requires d.Valid()
  {
    match o
    case Reply(e, c, k) => LeapEvents(d.client, e, c, k)
    case Request(r, q) => if IsServed(d.table, r, q) then WarningEvents(q.request, q.clock) else []
  }

  /** What one operation hands to the clock. */
  function HandedBy(d: DaemonState, o: Operation): seq<LeapSecond.Handover>
    requires d.Valid()
  {
    if o.Reply? && SyncOutcome(d.client.world.pool, o.sync.reply, o.sync.t1, o.sync.t4, o.sync.env).Accepted?
    then Handovers(o.check.Handed(LeapWarned(d.client.leap, o.sync.reply, o.warning), d.client.files), o.check)
    else []
  }

  function Events(d: DaemonState, run: seq<Operation>): seq<LeapSecond.Event>
    requires d.Valid()
  {
    if run == [] then []
    else Events(d, run[..|run|-1]) + EventsOf(After(d, run[..|run|-1]), run[|run|-1])
  }

  /** All that a run hands to the clock, in order. */
  function HandedInRun(d: DaemonState, run: seq<Operation>): seq<LeapSecond.Handover>
    requires d.Valid()
  {
    if run == [] then []
    else HandedInRun(d, run[..|run|-1]) + HandedBy(After(d, run[..|run|-1]), run[|run|-1])
  }

  lemma OperationExtendsLeapRun(events: seq<LeapSecond.Event>, d: DaemonState, o: Operation)
    requires d.Valid() && d.client.leap == LeapSecond.After(events)
    ensures Next(d, o).client.leap == LeapSecond.After(events + EventsOf(d, o))
    ensures LeapSecond.Handed(events + EventsOf(d, o)) == LeapSecond.Handed(events) + HandedBy(d, o)
  {
    hide LeapSecond.After, LeapSecond.Handed, LeapEvents, SyncOutcome, AfterReply;
    match o
    case Reply(e, c, k) =>
      ReplyExtendsLeapRun(events, d.client, e, c, k);
    case Request(r, q) =>
      ScheduleExtends(events, EventsOf(d, o));
      assert LeapSecond.Handed(events) + [] == LeapSecond.Handed(events);
  }

  lemma {:induction false} RunIsLeapRun(d: DaemonState, run: seq<Operation>)
    requires d.Valid() && d.client.leap == LeapSecond.Initial()
    ensures After(d, run).client.leap == LeapSecond.After(Events(d, run))
    ensures HandedInRun(d, run) == LeapSecond.Handed(Events(d, run))
  {
    hide EventsOf, HandedBy, Next, LeapSecond.Initial;
    if run == [] {
      LeapRunStarts();
    } else {
      RunIsLeapRun(d, run[..|run|-1]);
      OperationExtendsLeapRun(Events(d, run[..|run|-1]), After(d, run[..|run|-1]), run[|run|-1]);
    }
  }

  lemma LeapRunStarts()
    ensures LeapSecond.After([]) == LeapSecond.Initial() && LeapSecond.Handed([]) == []
  {
  }

  /** Over every run of the daemon, whatever replies and requests come in: each leap event that is
      accepted is handed to the clock at most once, in order, unchanged and never before its time; at
      any moment all of them have been handed over except the one that is pending. */
  lemma DaemonHandsOnceAndOnTime(d: DaemonState, run: seq<Operation>)
    requires d.Valid() && d.client.leap == LeapSecond.Initial()
    ensures var a, h, s := LeapSecond.Accepted(Events(d, run)), HandedInRun(d, run), After(d, run).client.leap;
      && |a| == |h| + (if s.scheduled then 1 else 0)
      && (forall i | 0 <= i < |h| :: h[i].offsetUs == a[i].offsetUs && h[i].now >= a[i].at)
      && (if s.scheduled then a[|h|] == LeapSecond.Leap(s.pendingOffsetUs, s.eventTime) else s.pendingOffsetUs == 0)
  {
    hide Events, HandedInRun, After, LeapSecond.After, LeapSecond.Accepted, LeapSecond.Handed;
    RunIsLeapRun(d, run);
    LeapSecond.HandedOnceAndOnTime(Events(d, run));
  }

  /** An operation asks for a leap in the given direction: by the indicator in the first two bits of
      its packet, or by the file that is looked at once a reply is accepted. */
  predicate Asks(o: Operation, dir: int) {
    match o
    case Reply(e, _, k) =>
      (|e.reply| >= 48 && e.reply[0] / 64 == dir) || (k.file.Direction? && k.file.dir == dir)
    case Request(_, q) => |q.request| >= 48 && q.request[0] / 64 == dir
  }

  ghost predicate AskedIn(run: seq<Operation>, dir: int) {
    dir in {1, 2} && exists k :: 0 <= k < |run| && Asks(run[k], dir)
  }

  lemma AskedByOperation(d: DaemonState, o: Operation)
    requires d.Valid()
    ensures forall x | x in EventsOf(d, o) && x.Schedule? :: x.dir in {1, 2} && Asks(o, x.dir)
  {
    hide SyncOutcome, Served;
  }

  lemma {:induction false} EventsAreAsked(d: DaemonState, run: seq<Operation>)
    requires d.Valid()
    ensures forall x | x in Events(d, run) && x.Schedule? :: AskedIn(run, x.dir)
  {
    hide EventsOf, Asks;
    if run != [] {
      var rest, o := run[..|run|-1], run[|run|-1];
      EventsAreAsked(d, rest);
      AskedByOperation(After(d, rest), o);
      forall x | x in Events(d, run) && x.Schedule? ensures AskedIn(run, x.dir) {
        if x in Events(d, rest) {
          var k :| 0 <= k < |rest| && Asks(rest[k], x.dir);
          assert Asks(run[k], x.dir);
        } else {
          assert Asks(run[|run|-1], x.dir);
        }
      }
    }
  }

  /** Over every run of the daemon the sign of a leap survives from the packet or file to the clock: the
      i-th hand-over is 60 s forward exactly when the i-th accepted request had direction 1, and 60 s
      back when it had direction 2; and every such request is the indicator of a packet of the run, or a
      file looked at in it. */
  lemma LeapSignsReachClock(d: DaemonState, run: seq<Operation>)
    requires d.Valid() && d.client.leap == LeapSecond.Initial()
    ensures var h, dirs := HandedInRun(d, run), LeapSecond.Directions(Events(d, run));
      && |h| <= |dirs|
      && (forall i | 0 <= i < |h| :: h[i].offsetUs == if dirs[i] == 1 then 60000000 else -60000000)
      && (forall i | 0 <= i < |dirs| :: AskedIn(run, dirs[i]))
  {
    hide Events, HandedInRun, After, AskedIn, LeapSecond.After, LeapSecond.Accepted, LeapSecond.Handed,
      LeapSecond.Directions;
    RunIsLeapRun(d, run);
    LeapSecond.SignReachesClock(Events(d, run));
    LeapSecond.DirectionsAsked(Events(d, run));
    EventsAreAsked(d, run);
    var dirs := LeapSecond.Directions(Events(d, run));
    forall i | 0 <= i < |dirs| ensures AskedIn(run, dirs[i]) {
      assert dirs[i] in dirs;
    }
  }

  // ---------- the rate limit ----------

  /** Whether every gate but the rate limit lets the request through to a delivered response. */
  predicate OtherwiseAnswered(r: Rules, q: Query) {
    IsAnswered([], r, q)
  }

  /** The requests of a run as the limiter sees them. */
  function Attempts(run: seq<Operation>): seq<RateLimit.Attempt> {
    if run == [] then []
    else
      var rest, o := Attempts(run[..|run|-1]), run[|run|-1];
      if o.Request?
      then rest + [RateLimit.Attempt(o.query.ip, o.query.env.checkTime, o.query.env.updateTime,
                                     OtherwiseAnswered(o.rules, o.query))]
      else rest
  }

  /** The responses delivered in a run: to whom, and when they were recorded. */
  function Answers(d: DaemonState, run: seq<Operation>): seq<RateLimit.Service>
    requires d.Valid()
  {
    if run == [] then []
    else
      var before, o := After(d, run[..|run|-1]), run[|run|-1];
      Answers(d, run[..|run|-1])
      + (if o.Request? && IsAnswered(before.table, o.rules, o.query)
         then [RateLimit.Service(o.query.ip, o.query.env.updateTime)] else [])
  }

  ghost predicate IntervalIs(run: seq<Operation>, interval: u8) {
    forall i | 0 <= i < |run| && run[i].Request? :: run[i].rules.interval == interval
  }

  lemma {:induction false} RunIsRateRun(d: DaemonState, run: seq<Operation>, interval: u8)
    requires d.Valid() && d.table == [] && IntervalIs(run, interval)
    ensures After(d, run).table == RateLimit.TableAfter(Answers(d, run))
    ensures Answers(d, run) == RateLimit.Granted(Attempts(run), interval)
  {
    hide AfterReply, RateLimit.Served, Served;
    if run != [] {
      var rest, o := run[..|run|-1], run[|run|-1];
      RunIsRateRun(d, rest, interval);
      var h, attempts := Answers(d, rest), Attempts(rest);
      assert h + [] == h;
      if o.Request? {
        LimitIsOneGate(RateLimit.TableAfter(h), o.rules, o.query);
        var s := RateLimit.Service(o.query.ip, o.query.env.updateTime);
        assert (h + [s])[..|h|] == h;
        var a := Attempts(run)[|attempts|];
        assert (attempts + [a])[..|attempts|] == attempts;
      }
    }
  }

  lemma LimitIsOneGate(table: seq<RateLimit.Entry>, r: Rules, q: Query)
    ensures IsAnswered(table, r, q) <==>
      OtherwiseAnswered(r, q) && !RateLimit.Limited(table, q.ip, q.env.checkTime, r.interval)
  {
  }

  /** Over every run of the daemon in which the clock does not go back, whatever replies and requests
      come in and however the access rules change: any two responses delivered to one client are at
      least the interval apart, unless 1024 insertions came between the client's own insertion and
      the second response. */
  lemma AnswersAreApart(d: DaemonState, run: seq<Operation>, interval: u8, i: nat, j: nat, p: nat)
    requires d.Valid() && d.table == [] && IntervalIs(run, interval)
    requires RateLimit.InOrder(Attempts(run))
    requires var g := Answers(d, run); i < j < |g| && g[i].ip == g[j].ip != 0
    requires var g := Answers(d, run);
      p < |RateLimit.Log(g[..i+1])| && RateLimit.Log(g[..i+1])[p] == g[i].ip
    ensures var g := Answers(d, run);
      g[j].at - g[i].at >= interval ||
      |RateLimit.Log(g[..j])| - (p + 1) >= 1024
  {
    hide Answers, Attempts, RateLimit.Granted, RateLimit.Log;
    RunIsRateRun(d, run, interval);
    RateLimit.GrantsAreApart(Attempts(run), interval, i, j, p);
  }
}
