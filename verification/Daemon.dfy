/** The daemon's two halves as state-changing operations: a sync with a server, and the handling
    of a client's request.  Each runs as one atomic step. */
module Daemon {
  import opened Words
  import opened Wire
  import opened OnWire
  import opened NtpPacket
  import opened MarxFilter
  import opened ClockAdjustment
  import opened Synchronization
  import opened ExtensionFields
  import AccessControl
  import RateLimit
  import LeapSecond
  import FilterTheorems

  /** Configuration that does not change while a request is handled. */
  datatype Config = Config(authEnabled: bool, enableControl: bool, broadcastMode: bool, maxResponseRatio: real)

  /** Clock readings and outside results of one request: the times of the rate check and of the
      rate update, the receive and transmit stamps, and whether the response could be sent. */
  datatype RequestEnv = RequestEnv(checkTime: int, updateTime: int, t2: Timestamp, t3: Timestamp, delivered: bool)

  /** The two readings of the wall clock when a leap event is scheduled. */
  datatype LeapClock = LeapClock(minute: Option<int>, now: int)

  /** What a leap indicator does to the leap events. */
  function LeapAfter(s: LeapSecond.LeapState, li: int, c: LeapClock): LeapSecond.LeapState {
    if li == 1 || li == 2 then LeapSecond.Scheduled(s, li, c.minute, c.now) else s
  }

  /** The readings and outside results of the leap check that follows an accepted sync: the time
      and the file of the day, the clock when its event is scheduled, the two times at which a
      pending event is tested and applied, and the clock's answer to that. */
  datatype LeapCheck = LeapCheck(
    now: int, file: LeapSecond.LeapFile, clock: LeapClock, testTime: int, applyTime: int, clockResult: int)
  {
    function Verdict(f: LeapSecond.FileState): LeapSecond.FileCheck {
      LeapSecond.CheckedFile(f, now, file)
    }

    /** The leap events once the file has been looked at. */
    function Announced(s: LeapSecond.LeapState, f: LeapSecond.FileState): LeapSecond.LeapState {
      LeapSecond.AfterFile(s, Verdict(f), clock.minute, clock.now)
    }

    /** The leap events after the check; a failed look at the file ends it. */
    function Outcome(s: LeapSecond.LeapState, f: LeapSecond.FileState): LeapSecond.LeapState {
      if Verdict(f).Failed? then s else LeapSecond.Checked(Announced(s, f), testTime, applyTime)
    }

    /** The offset handed to the clock by the check. */
    function Handed(s: LeapSecond.LeapState, f: LeapSecond.FileState): Option<int> {
      var a := Announced(s, f);
      if !Verdict(f).Failed? && LeapSecond.Due(a, testTime) && LeapSecond.Due(a, applyTime)
      then Some(a.pendingOffsetUs) else None
    }
  }

  /** The leap check after an accepted sync: without initialisation it does nothing; when the file was
      looked at less than the interval ago, a pending event is handed over and cleared exactly when it is
      due at both readings of the clock. */
  lemma CheckOutright(s: LeapSecond.LeapState, f: LeapSecond.FileState, k: LeapCheck)
    ensures !f.initialized ==> k.Outcome(s, f) == s && k.Handed(s, f) == None
    ensures f.initialized && k.now - f.lastCheck < f.interval ==>
      var due := s.scheduled && s.eventTime <= k.testTime && s.eventTime <= k.applyTime;
      && k.Handed(s, f) == (if due then Some(s.pendingOffsetUs) else None)
      && k.Outcome(s, f) == if due then s.(scheduled := false, pendingOffsetUs := 0, pendingDir := 0) else s
  {
  }

  /** The parts of the daemon a reply may change. */
  datatype ClientState = ClientState(world: World, leap: LeapSecond.LeapState, files: LeapSecond.FileState)

  /** The leap events once the indicator of a reply has been looked at. */
  function LeapWarned(s: LeapSecond.LeapState, reply: seq<u8>, c: LeapClock): LeapSecond.LeapState {
    if |reply| >= HEADER_SIZE && WellFormed(Decode(reply)) then LeapAfter(s, Decode(reply).Li(), c) else s
  }

  /** Everything a reply does: the sync, the leap warning, and, only once it is accepted, the leap
      check. */
  function AfterReply(d: ClientState, e: Sync, c: LeapClock, k: LeapCheck): (r: ClientState)
    requires d.world.Valid()
    ensures r.world.Valid()
  {
    var o := SyncOutcome(d.world.pool, e.reply, e.t1, e.t4, e.env);
    var warned := LeapWarned(d.leap, e.reply, c);
    if o.Accepted?
    then ClientState(Synced(d.world, e), k.Outcome(warned, d.files), LeapSecond.FilesAfter(d.files, k.Verdict(d.files), k.now))
    else ClientState(Synced(d.world, e), warned, d.files)
  }

  /** A reply that does not parse changes nothing. */
  lemma UnparsedReply(d: ClientState, e: Sync, c: LeapClock, k: LeapCheck)
    requires d.world.Valid() && (|e.reply| < HEADER_SIZE || !WellFormed(Decode(e.reply)))
    ensures SyncOutcome(d.world.pool, e.reply, e.t1, e.t4, e.env) == Unparsed
    ensures AfterReply(d, e, c, k) == d
  {
  }

  /** What a reply that parses does, in terms of its header. */
  function AfterHeader(d: ClientState, h: Header, e: Sync, c: LeapClock, k: LeapCheck): ClientState
    requires d.world.Valid()
  {
    var g := HeaderGate(h, e.t1, e.t4);
    var o := AfterSampling(d.world.pool, g, e.env);
    var w := World(SysAfter(d.world.sys, o, h, e.t4, e.env), PoolAfterGate(d.world.pool, g, e.env));
    var warned := LeapAfter(d.leap, h.Li(), c);
    if o.Accepted?
    then ClientState(w, k.Outcome(warned, d.files), LeapSecond.FilesAfter(d.files, k.Verdict(d.files), k.now))
    else ClientState(w, warned, d.files)
  }

  lemma ParsedReply(d: ClientState, e: Sync, c: LeapClock, k: LeapCheck, h: Header)
    requires d.world.Valid() && |e.reply| >= HEADER_SIZE && h == Decode(e.reply) && WellFormed(h)
    ensures SyncOutcome(d.world.pool, e.reply, e.t1, e.t4, e.env) ==
      AfterSampling(d.world.pool, HeaderGate(h, e.t1, e.t4), e.env)
    ensures LeapWarned(d.leap, e.reply, c) == LeapAfter(d.leap, h.Li(), c)
    ensures AfterReply(d, e, c, k) == AfterHeader(d, h, e, c, k)
  {
  }

  /** Any packet whose indicator announces a leap schedules an event, unless one is pending or the
      clock gives no end of the minute. */
  lemma IndicatorSchedules(s: LeapSecond.LeapState, li: int, c: LeapClock)
    ensures LeapAfter(s, li, c) == s <==>
      (li != 1 && li != 2) || s.scheduled || LeapSecond.EndOfMinute(c.minute) == 0
    ensures LeapAfter(s, li, c) != s ==>
      && LeapAfter(s, li, c).scheduled && LeapAfter(s, li, c).pendingDir == li
      && LeapAfter(s, li, c).pendingOffsetUs == if li == 1 then 60000000 else -60000000
  {
  }

  /** A reply refused at the mode, origin, transmit or delay gate leaves the whole daemon as it was
      exactly when its indicator announces no leap, or an event is already pending, or the clock
      gives no end of the minute: the indicator is acted on before those gates. */
  lemma RefusedReplyIsInert(d: ClientState, e: Sync, c: LeapClock, k: LeapCheck)
    requires d.world.Valid()
    requires Gate(e.reply, e.t1, e.t4) in {WrongMode, BogusOrigin, NoTransmit, NegativeDelay}
    ensures |e.reply| >= HEADER_SIZE
    ensures AfterReply(d, e, c, k) == d <==>
      (Decode(e.reply).Li() != 1 && Decode(e.reply).Li() != 2)
      || d.leap.scheduled || LeapSecond.EndOfMinute(c.minute) == 0
  {
    assert Synced(d.world, e) == d.world;
    IndicatorSchedules(d.leap, Decode(e.reply).Li(), c);
  }

  /** The leap requests and hand-overs of one reply, in order: the warning, the file, the pending
      event. */
  function LeapEvents(d: ClientState, e: Sync, c: LeapClock, k: LeapCheck): seq<LeapSecond.Event>
    requires d.world.Valid()
  {
    WarningEvents(e.reply, c)
    + (if SyncOutcome(d.world.pool, e.reply, e.t1, e.t4, e.env).Accepted?
       then CheckEvents(LeapWarned(d.leap, e.reply, c), d.files, k) else [])
  }

  function WarningEvents(reply: seq<u8>, c: LeapClock): seq<LeapSecond.Event> {
    if |reply| >= HEADER_SIZE && WellFormed(Decode(reply)) && (Decode(reply).Li() == 1 || Decode(reply).Li() == 2)
    then [LeapSecond.Schedule(Decode(reply).Li(), c.minute, c.now)] else []
  }

  function CheckEvents(s: LeapSecond.LeapState, f: LeapSecond.FileState, k: LeapCheck): seq<LeapSecond.Event> {
    FileEvents(f, k)
    + (if !k.Verdict(f).Failed? && LeapSecond.Due(k.Announced(s, f), k.testTime)
       then [LeapSecond.Apply(k.applyTime)] else [])
  }

  function FileEvents(f: LeapSecond.FileState, k: LeapCheck): seq<LeapSecond.Event> {
    if k.Verdict(f).Announces? then [LeapSecond.Schedule(k.Verdict(f).dir, k.clock.minute, k.clock.now)] else []
  }

  /** What a reply hands to the clock, as an entry of the run. */
  function Handovers(handed: Option<int>, k: LeapCheck): seq<LeapSecond.Handover> {
    if handed.Some? then [LeapSecond.Handover(handed.value, k.applyTime)] else []
  }

  /** A reply extends a run of leap events by its own, and hands over what the run does. */
  lemma ReplyExtendsLeapRun(run: seq<LeapSecond.Event>, d: ClientState, e: Sync, c: LeapClock, k: LeapCheck)
    requires d.world.Valid() && d.leap == LeapSecond.After(run)
    ensures AfterReply(d, e, c, k).leap == LeapSecond.After(run + LeapEvents(d, e, c, k))
    ensures LeapSecond.Handed(run + LeapEvents(d, e, c, k)) == LeapSecond.Handed(run)
      + (if SyncOutcome(d.world.pool, e.reply, e.t1, e.t4, e.env).Accepted?
         then Handovers(k.Handed(LeapWarned(d.leap, e.reply, c), d.files), k) else [])
  {
    hide CheckEvents, SyncOutcome, Synced;
    var warned, first := LeapWarned(d.leap, e.reply, c), WarningEvents(e.reply, c);
    ScheduleExtends(run, first);
    CheckExtendsLeapRun(run + first, warned, d.files, k);
    assert run + (first + CheckEvents(warned, d.files, k)) == (run + first) + CheckEvents(warned, d.files, k);
    assert run + (first + []) == run + first;
  }

  /** At most one request to schedule, appended to a run. */
  lemma ScheduleExtends(run: seq<LeapSecond.Event>, more: seq<LeapSecond.Event>)
    requires |more| <= 1 && forall x | x in more :: x.Schedule?
    ensures LeapSecond.Handed(run + more) == LeapSecond.Handed(run)
    ensures LeapSecond.After(run + more) ==
      if more == [] then LeapSecond.After(run)
      else LeapSecond.Scheduled(LeapSecond.After(run), more[0].dir, more[0].clock, more[0].now)
  {
    if more == [] {
      assert run + more == run;
    } else {
      assert more == [more[0]];
      LeapSecond.OneMore(run, more[0]);
    }
  }

  lemma CheckExtendsLeapRun(run: seq<LeapSecond.Event>, s: LeapSecond.LeapState, f: LeapSecond.FileState, k: LeapCheck)
    requires s == LeapSecond.After(run)
    ensures k.Outcome(s, f) == LeapSecond.After(run + CheckEvents(s, f, k))
    ensures LeapSecond.Handed(run + CheckEvents(s, f, k)) == LeapSecond.Handed(run) + Handovers(k.Handed(s, f), k)
  {
    hide LeapSecond.After, LeapSecond.Handed, LeapSecond.Scheduled, LeapSecond.CheckedFile;
    var file, apply := FileEvents(f, k), LeapSecond.Apply(k.applyTime);
    ScheduleExtends(run, file);
    LeapSecond.OneMore(run + file, apply);
    assert run + (file + [apply]) == (run + file) + [apply] && file + [] == file;
    assert LeapSecond.Handed(run) + [] == LeapSecond.Handed(run);
  }

  /** Whether a response of 48 bytes is within the configured ratio to the request. */
  predicate RatioOk(size: nat, ratio: real) {
    !(HEADER_SIZE > (size as real * ratio).Floor)
  }

  /** The gates a request must pass before its leap indicator is looked at. */
  predicate Served(cfg: Config, policy: AccessControl.Policy, acl: seq<AccessControl.AclEntry>,
                   table: seq<RateLimit.Entry>, interval: u8, request: seq<u8>, ip: bv32, checkTime: int)
  {
    && |request| >= HEADER_SIZE
    && var h := Decode(request);
    && WellFormed(h)
    && Walk(request, HEADER_SIZE, cfg.authEnabled) != NotSupported
    && (h.Mode() == MODE_CONTROL || h.Mode() == MODE_PRIVATE ==> cfg.enableControl)
    && AccessControl.Allowed(policy, acl, ip, h.Mode())
    && !RateLimit.Limited(table, ip, checkTime, interval)
    && ResponseMode(h.Mode(), cfg.broadcastMode) != 0
    && RatioOk(|request|, cfg.maxResponseRatio)
  }

  /** What governs the handling of requests, as it stands when one comes in. */
  datatype Rules = Rules(cfg: Config, policy: AccessControl.Policy, acl: seq<AccessControl.AclEntry>, interval: u8)

  datatype Query = Query(request: seq<u8>, ip: bv32, env: RequestEnv, clock: LeapClock)

  /** All the daemon's state that replies and requests change. */
  datatype DaemonState = DaemonState(client: ClientState, table: seq<RateLimit.Entry>) {
    ghost predicate Valid() {
      client.world.Valid() && |table| <= RateLimit.MAX_RATE_LIMIT_ENTRIES
    }
  }

  predicate IsServed(table: seq<RateLimit.Entry>, r: Rules, q: Query) {
    Served(r.cfg, r.policy, r.acl, table, r.interval, q.request, q.ip, q.env.checkTime)
  }

  predicate IsAnswered(table: seq<RateLimit.Entry>, r: Rules, q: Query) {
    IsServed(table, r, q) && Decode(q.request).Li() != LI_ALARM && q.env.delivered
  }

  /** Which requests are answered, by their bytes: version 4, no alarm, mode 1, 2 or 3, or 5 when
      broadcast is on, a stratum of at most 16, no code while authentication is off, allowed by the
      access rules, not rate limited, and large enough for 48 bytes to be within the ratio. */
  lemma AnsweredByBytes(table: seq<RateLimit.Entry>, r: Rules, q: Query)
    ensures IsAnswered(table, r, q) <==>
      && |q.request| >= 48
      && q.request[0] / 64 != 3 && q.request[0] / 8 % 8 == 4 && q.request[1] <= 16
      && (q.request[0] % 8 in {1, 2, 3} || (q.request[0] % 8 == 5 && r.cfg.broadcastMode))
      && Walk(q.request, 48, r.cfg.authEnabled) != NotSupported
      && AccessControl.Allowed(r.policy, r.acl, q.ip, q.request[0] % 8)
      && !RateLimit.Limited(table, q.ip, q.env.checkTime, r.interval)
      && |q.request| as real * r.cfg.maxResponseRatio >= 48.0
      && q.env.delivered
  {
    hide Walk, AccessControl.Allowed, RateLimit.Limited, ReadU32be, ReadTimestamp;
    if |q.request| >= 48 {
      ParsedByBytes(q.request);
      DecodeLayout(q.request);
      AnsweredModes(q.request[0] % 8, r.cfg.broadcastMode);
    }
  }

  /** The modes of request and response, in their bytes. */
  lemma AnswerModeByte(s: SysState, precision: i8, request: seq<u8>, broadcastMode: bool, t2: Timestamp, t3: Timestamp)
    requires |request| >= 48 && ResponseMode(Decode(request).Mode(), broadcastMode) != 0
    ensures var answer := Encode(Answer(s, precision, Decode(request), broadcastMode, t2, t3));
      |answer| == 48 && request[0] % 8 in {1, 2, 3, 5}
      && answer[0] % 8 == if request[0] % 8 == 3 then 4 else if request[0] % 8 == 5 then 5 else 2
  {
    hide Encode, ReadU32be, ReadTimestamp;
    var a := Answer(s, precision, Decode(request), broadcastMode, t2, t3);
    EncodeLayout(a);
    DecodeLayout(request);
    AnsweredModes(request[0] % 8, broadcastMode);
    PackUnpack(if s.synced then s.li % 4 else LI_ALARM, NTP_VN_4, ResponseMode(Decode(request).Mode(), broadcastMode), a);
  }

  /** Everything a request does: the leap warning of one that is served, and the record of one that
      is answered. */
  function AfterRequest(d: DaemonState, r: Rules, q: Query): (after: DaemonState)
    requires d.Valid()
    ensures after.Valid()
  {
    DaemonState(
      d.client.(leap := if IsServed(d.table, r, q) then LeapAfter(d.client.leap, Decode(q.request).Li(), q.clock)
                        else d.client.leap),
      if IsAnswered(d.table, r, q) then RateLimit.Served(d.table, q.ip, q.env.updateTime) else d.table)
  }

  class Daemon {
    var timeSynced: bool
    var localStratum: u8
    var localLi: u8
    var localRefId: u32
    var localRefTs: Timestamp
    var localRootDelay: u32
    var localRootDisp: u32
    var localPoll: i8
    const localPrecision: i8
    const pool: SamplePool
    const acl: AccessControl.AccessControlList
    const limiter: RateLimit.RateLimiter
    const leap: LeapSecond.LeapSeconds

    ghost predicate Valid()
      reads this, pool, acl, acl.entries, limiter
    {
      pool.Valid() && acl.Valid() && limiter.Valid()
    }

    ghost function Sys(): SysState
      reads this
    {
      SysState(timeSynced, localStratum, localLi, localRefId, localRefTs, localRootDelay, localRootDisp, localPoll)
    }

    ghost function World(): World
      reads this, pool, pool.samples
    {
      Synchronization.World(Sys(), pool.State())
    }

    ghost function Client(): ClientState
      reads this, pool, pool.samples, leap
    {
      ClientState(World(), leap.State(), leap.Files())
    }

    ghost function State(): DaemonState
      requires Valid()
      reads this, pool, pool.samples, acl, acl.entries, limiter, limiter.entries, leap
    {
      DaemonState(Client(), limiter.Table())
    }

    constructor (precision: i8, pool: SamplePool, acl: AccessControl.AccessControlList,
                 limiter: RateLimit.RateLimiter, leap: LeapSecond.LeapSeconds)
      requires pool.Valid() && acl.Valid() && limiter.Valid()
      ensures Valid() && Sys() == STARTUP
      ensures localPrecision == precision
      ensures this.pool == pool && this.acl == acl && this.limiter == limiter && this.leap == leap
    {
      timeSynced, localStratum, localLi, localRefId := false, 16, 3, 0;
      localRefTs, localRootDelay, localRootDisp, localPoll := ZERO_TIMESTAMP, 0, 0, 4;
      localPrecision := precision;
      this.pool, this.acl, this.limiter, this.leap := pool, acl, limiter, leap;
    }

    /** Schedules a leap event for a warning; true when the packet must be skipped. */
    method HandleLeapIndicator(li: int, c: LeapClock) returns (skip: bool)
      requires 0 <= li < 4
      modifies leap
      ensures leap.State() == LeapAfter(old(leap.State()), li, c) && leap.Files() == old(leap.Files())
      ensures skip <==> li == LI_ALARM
    {
      if li == 1 || li == 2 {
        var _ := leap.ScheduleEvent(li, c.minute, c.now);
        return false;
      }
      return li != 0;
    }

    /** Looks at the leap file, then hands over a pending event that is due. */
    method LeapIntegrationCheck(k: LeapCheck) returns (rc: int, handed: Option<int>)
      modifies leap
      ensures leap.State() == k.Outcome(old(leap.State()), old(leap.Files()))
      ensures leap.Files() == LeapSecond.FilesAfter(old(leap.Files()), k.Verdict(old(leap.Files())), k.now)
      ensures handed == k.Handed(old(leap.State()), old(leap.Files()))
      ensures rc == if k.Verdict(old(leap.Files())).Failed? then -1 else 0
    {
      rc := leap.CheckFile(k.now, k.file, k.clock.minute, k.clock.now);
      if rc != 0 {
        return -1, None;
      }
      handed := leap.CheckAndApply(k.testTime, k.applyTime, k.clockResult);
    }

    /** Handles the reply received to a request sent at `t1`.  `garbage` is what uninitialised
        memory happens to hold; `handed` is the leap offset given to the clock, if any. */
    method ProcessReply(reply: seq<u8>, t1: Timestamp, t4: Timestamp, env: SyncEnv, c: LeapClock, k: LeapCheck, garbage: Memory)
      returns (o: Outcome, handed: Option<int>)
      requires Valid() && garbage.Valid() && !IsKod(garbage.header)
      modifies this, pool`count, pool.samples, leap
      ensures Valid()
      ensures o == SyncOutcome(old(pool.State()), reply, t1, t4, env)
      ensures Client() == AfterReply(old(Client()), Sync(reply, t1, t4, env), c, k)
      ensures limiter.Table() == old(limiter.Table())
      ensures handed ==
        if o.Accepted? then k.Handed(LeapWarned(old(leap.State()), reply, c), old(leap.Files())) else None
    {
      hide Decode, AfterReply, AfterHeader, SyncOutcome, AfterSampling, LeapWarned;
      handed := None;
      ghost var d, e := Client(), Sync(reply, t1, t4, env);
      var pkt := new Packet(garbage.header, garbage.mac);
      var parsed := pkt.Parse(reply, garbage.behind);
      if !parsed {
        UnparsedReply(d, e, c, k);
        return Unparsed, None;
      }
      ParsedReply(d, e, c, k, Decode(reply));
      o, handed := ProcessParsed(pkt.Value(), t1, t4, env, c, k, e);
    }

    /** The part of a sync behind the parser: the leap indicator, the gates, and once the reply is
        accepted the leap check. */
    method ProcessParsed(h: Header, t1: Timestamp, t4: Timestamp, env: SyncEnv, c: LeapClock, k: LeapCheck, ghost e: Sync)
      returns (o: Outcome, handed: Option<int>)
      requires Valid() && WellFormed(h) && e.t1 == t1 && e.t4 == t4 && e.env == env
      modifies this, pool`count, pool.samples, leap
      ensures Valid()
      ensures o == AfterSampling(old(pool.State()), HeaderGate(h, t1, t4), env)
      ensures Client() == AfterHeader(old(Client()), h, e, c, k)
      ensures handed == if o.Accepted? then k.Handed(LeapAfter(old(leap.State()), h.Li(), c), old(leap.Files())) else None
    {
      handed := None;
      var skip := HandleLeapIndicator(h.Li(), c);
      if skip {
        return Alarm, None;
      }
      o := ProcessHeader(h, t1, t4, env);
      if o.Accepted? {
        var _, offset := LeapIntegrationCheck(k);
        handed := offset;
      }
    }

    /** The gates behind the leap indicator. */
    method ProcessHeader(h: Header, t1: Timestamp, t4: Timestamp, env: SyncEnv) returns (o: Outcome)
      requires Valid() && WellFormed(h) && h.Li() != LI_ALARM
      modifies this, pool`count, pool.samples
      ensures Valid()
      ensures o == AfterSampling(old(pool.State()), HeaderGate(h, t1, t4), env)
      ensures pool.State() == PoolAfterGate(old(pool.State()), HeaderGate(h, t1, t4), env)
      ensures Sys() == SysAfter(old(Sys()), o, h, t4, env)
    {
      if h.Mode() != MODE_SERVER {
        return WrongMode;
      }
      if IsKod(h) {
        assert false;
      }
      if h.origTs.sec != t1.sec || h.origTs.frac != t1.frac {
        return BogusOrigin;
      }
      if h.xmitTs.sec == 0 && h.xmitTs.frac == 0 {
        return NoTransmit;
      }
      var measured := DelayOffset(t1, h.recvTs, h.xmitTs, t4);
      if measured == None {
        return NegativeDelay;
      }
      o := UseMeasurement(h, measured.value, t4, env);
    }

    /** The part of a sync that judges a measurement and takes it over. */
    method UseMeasurement(h: Header, m: Measurement, t4: Timestamp, env: SyncEnv) returns (o: Outcome)
      requires Valid()
      modifies this, pool`count, pool.samples
      ensures Valid()
      ensures o == AfterSampling(old(pool.State()), MeasurementGate(h.stratum, m), env)
      ensures pool.State() == PoolAfterGate(old(pool.State()), MeasurementGate(h.stratum, m), env)
      ensures Sys() == SysAfter(old(Sys()), o, h, t4, env)
    {
      var stratum := LocalStratum(h.stratum);
      if h.stratum == 0 || h.stratum > 15 {
        localStratum, timeSynced := 16, false;
        return UnreliablePeer;
      }
      var absOffsetUs := if m.offsetUs >= 0 then m.offsetUs as int else -(m.offsetUs as int);
      if absOffsetUs > MAXDIST {
        localStratum, timeSynced := 16, false;
        return TooFar;
      }
      if m.delayUs > MAXDIST * 10 {
        timeSynced := false;
        return TooSlow;
      }
      var validCount := StoreAndFilter(m, env);
      if validCount == 0 {
        timeSynced := false;
        return NoSamples;
      }
      TakeOver(h, m, stratum, t4, env);
      return Accepted(m);
    }

    /** Publishes an accepted measurement. */
    method TakeOver(h: Header, m: Measurement, stratum: u8, t4: Timestamp, env: SyncEnv)
      requires stratum == LocalStratum(h.stratum) && 1 <= h.stratum <= 15
      modifies this
      ensures Sys() == SysAfter(old(Sys()), Accepted(m), h, t4, env)
    {
      localPoll := AdjustPollInterval(localPoll, h.poll, m.delayUs, m.offsetUs);
      timeSynced := stratum <= 15;
      localStratum := stratum;
      localRefTs := t4;
      localRootDelay := U16_16FromUs(m.delayUs);
      localRootDisp := env.rootDisp;
      localLi := h.Li();
      localRefId := if timeSynced && localStratum >= 2 && env.peerAddress.Some? then env.peerAddress.value
                    else REF_ID_LOCL;
    }

    /** Stores the sample if the clock can be read, and filters the live pool in place. */
    method StoreAndFilter(m: Measurement, env: SyncEnv) returns (validCount: int)
      requires Valid()
      modifies pool`count, pool.samples
      ensures Valid()
      ensures (pool.State(), validCount) == FilteredPool(Stored(old(pool.State()), m, env))
    {
      if env.sampleTime.Some? {
        pool.AddSample(env.sampleTime.value, m.delayUs, m.offsetUs);
      }
      ghost var stored := pool.State();
      assert pool.samples[..][..pool.count] == FilterTheorems.Live(stored);
      validCount := pool.FilterOutliers(pool.samples, pool.count, MARX_K);
    }

    /** Handles one request.  The result is the response, if one was made and delivered; the rate
        table records exactly the delivered ones. */
    method HandleRequest(request: seq<u8>, ip: bv32, cfg: Config, env: RequestEnv, c: LeapClock, garbage: Memory)
      returns (response: Option<seq<u8>>)
      requires Valid() && garbage.Valid() && !IsKod(garbage.header)
      modifies limiter`count, limiter.entries, leap
      ensures Valid()
      ensures
        var r, q := Rules(cfg, acl.policy, acl.Acl(), limiter.interval), Query(request, ip, env, c);
        && State() == AfterRequest(old(State()), r, q)
        && (response.Some? <==> IsAnswered(old(limiter.Table()), r, q))
      ensures response.Some? ==>
        && |request| >= 48 && request[0] % 8 in {1, 2, 3, 5} && |response.value| == 48
        && response.value[0] % 8 == (if request[0] % 8 == 3 then 4 else if request[0] % 8 == 5 then 5 else 2)
        && response.value ==
             Encode(Answer(Sys(), localPrecision, Decode(request), cfg.broadcastMode, env.t2, env.t3))
    {
      hide Decode, Encode, Served, ResponseMode, LeapSecond.Scheduled, RateLimit.Served;
      response := None;
      var h, mode := PassGates(request, ip, cfg, env.checkTime, garbage);
      if mode == 0 {
        return;
      }
      if IsKod(h) {
        assert false;
      }
      var skip := HandleLeapIndicator(h.Li(), c);
      if skip {
        return;
      }
      var bytes := BuildResponse(h, mode, env.t2, env.t3);
      if !env.delivered {
        return;
      }
      limiter.Update(ip, env.updateTime);
      AnswerModeByte(Sys(), localPrecision, request, cfg.broadcastMode, env.t2, env.t3);
      response := Some(bytes);
    }

    /** The gates in order; `mode` is the response mode, zero when a gate refuses. */
    method PassGates(request: seq<u8>, ip: bv32, cfg: Config, checkTime: int, garbage: Memory)
      returns (h: Header, mode: u8)
      requires Valid() && garbage.Valid() && !IsKod(garbage.header)
      ensures mode != 0 <==>
        Served(cfg, acl.policy, acl.Acl(), limiter.Table(), limiter.interval, request, ip, checkTime)
      ensures mode != 0 ==>
        && |request| >= HEADER_SIZE && h == Decode(request) && WellFormed(h)
        && mode == ResponseMode(h.Mode(), cfg.broadcastMode)
    {
      h, mode := garbage.header, 0;
      if |request| < HEADER_SIZE {
        return;
      }
      var pkt := new Packet(garbage.header, garbage.mac);
      var parsed := pkt.Parse(request, garbage.behind);
      if !parsed {
        return;
      }
      h := pkt.Value();
      var verdict := ValidatePacketAuthentication(Some(request), cfg.authEnabled);
      if verdict == NotSupported {
        return;
      }
      if h.Mode() == MODE_CONTROL || h.Mode() == MODE_PRIVATE {
        if !cfg.enableControl {
          return;
        }
      }
      var allowed := acl.CheckClient(ip, h.Mode());
      if !allowed {
        return;
      }
      var limited := limiter.Check(ip, checkTime);
      if limited {
        return;
      }
      var responseMode := ResponseMode(h.Mode(), cfg.broadcastMode);
      if responseMode == 0 {
        return;
      }
      if !RatioOk(|request|, cfg.maxResponseRatio) {
        return;
      }
      mode := responseMode;
    }

    /** Lays out the 48 bytes of the response. */
    method BuildResponse(req: Header, mode: u8, t2: Timestamp, t3: Timestamp) returns (bytes: seq<u8>)
      requires mode < 8
      ensures bytes == Encode(ResponseHeader(Sys(), localPrecision, req, mode, t2, t3))
    {
      var response := new u8[HEADER_SIZE](_ => 0);
      var outStratum, outRefId, outRefTs := localStratum, localRefId, localRefTs;
      var outRootDelay, outRootDisp, outLi := localRootDelay, localRootDisp, localLi as int;
      if !timeSynced {
        outStratum, outRefId, outRefTs := 16, REF_ID_LOCL, ZERO_TIMESTAMP;
        outRootDelay, outRootDisp, outLi := 0, 0, 3;
      }
      var h := Header(PackLiVnMode(outLi, NTP_VN_4, mode), outStratum, req.poll, localPrecision,
                      outRootDelay, outRootDisp, outRefId, outRefTs, req.xmitTs, t2, t3);
      WriteHeader(response, h);
      bytes := response[..];
      assert response[..] == response[..][..HEADER_SIZE];
    }
  }
}
