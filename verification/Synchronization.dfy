/** The client and server halves of an exchange as functions: the gates a reply must pass, what
    an accepted reply does to the system state, and the header of a response. */
module Synchronization {
  import opened Words
  import opened Wire
  import opened OnWire
  import opened NtpPacket
  import opened MarxFilter
  import opened ClockAdjustment
  import FilterTheorems
  import FrequencyDiscipline

  const MAXDIST := FrequencyDiscipline.MAXDIST
  const LI_ALARM := 3
  const STRATUM_UNSYNC := 16
  const REF_ID_LOCL := 0x4C4F434C
  const MARX_K := 3

  /** The variables a response is made from, and the local poll exponent. */
  datatype SysState = SysState(
    synced: bool, stratum: u8, li: u8, refId: u32, refTs: Timestamp,
    rootDelay: u32, rootDisp: u32, poll: i8)

  const STARTUP: SysState := SysState(false, 16, 3, 0, ZERO_TIMESTAMP, 0, 0, 4)

  // ---------- the client ----------

  /** Local stratum below a peer. */
  function LocalStratum(peer: u8): u8 {
    if peer == 0 || peer > 15 then STRATUM_UNSYNC else if peer + 1 > 15 then 15 else peer + 1
  }

  /** How far a received reply gets. */
  datatype Outcome =
    | Unparsed | Alarm | WrongMode | KissOfDeath | BogusOrigin | NoTransmit | NegativeDelay
    | UnreliablePeer | TooFar | TooSlow | NoSamples
    | Accepted(m: Measurement)

  /** The gates in the order of the code, up to the sample filter. */
  function Gate(reply: seq<u8>, t1: Timestamp, t4: Timestamp): Outcome {
    if |reply| < HEADER_SIZE || !WellFormed(Decode(reply)) then Unparsed
    else HeaderGate(Decode(reply), t1, t4)
  }

  function HeaderGate(h: Header, t1: Timestamp, t4: Timestamp): Outcome {
    if h.Li() == LI_ALARM then Alarm
    else if h.Mode() != MODE_SERVER then WrongMode
    else if IsKod(h) then KissOfDeath
    else if h.origTs != t1 then BogusOrigin
    else if h.xmitTs == ZERO_TIMESTAMP then NoTransmit
    else match DelayOffset(t1, h.recvTs, h.xmitTs, t4)
      case None => NegativeDelay
      case Some(m) => MeasurementGate(h.stratum, m)
  }

  function MeasurementGate(stratum: u8, m: Measurement): Outcome {
    if stratum == 0 || stratum > 15 then UnreliablePeer
    else if Abs(m.offsetUs) > MAXDIST then TooFar
    else if m.delayUs > MAXDIST * 10 then TooSlow
    else Accepted(m)
  }

  /** The readings and results a sync takes from outside: the wall clock for the sample (if it
      can be read), the new root dispersion, and the peer's address as a reference id (if it is
      an IPv4 address). */
  datatype SyncEnv = SyncEnv(sampleTime: Option<u64>, rootDisp: u32, peerAddress: Option<u32>)

  /** The pool after the new sample is stored. */
  function Stored(p: PoolState, m: Measurement, env: SyncEnv): (r: PoolState)
    requires p.count <= |p.slots|
    ensures r.count <= |r.slots| == |p.slots|
  {
    match env.sampleTime
    case None => p
    case Some(ts) => WithSample(p, NtpSample(ts, m.delayUs, m.offsetUs))
  }

  /** Filtering the live pool in place. */
  function FilteredPool(p: PoolState): (r: (PoolState, nat))
    requires p.count <= |p.slots|
    ensures r.0.count <= |r.0.slots| == |p.slots|
  {
    if p.count < 3 then (p, p.count) else LivePass(p, Cutoff(FilterTheorems.Live(p), MARX_K), p.count)
  }

  /** What the gates let through may still fail for lack of samples. */
  function AfterSampling(p: PoolState, o: Outcome, env: SyncEnv): Outcome
    requires p.count <= |p.slots|
  {
    if o.Accepted? && FilteredPool(Stored(p, o.m, env)).1 == 0 then NoSamples else o
  }

  function PoolAfterGate(p: PoolState, o: Outcome, env: SyncEnv): (r: PoolState)
    requires p.count <= |p.slots|
    ensures r.count <= |r.slots| == |p.slots|
  {
    if o.Accepted? then FilteredPool(Stored(p, o.m, env)).0 else p
  }

  /** The outcome of a whole sync. */
  function SyncOutcome(p: PoolState, reply: seq<u8>, t1: Timestamp, t4: Timestamp, env: SyncEnv): Outcome
    requires p.count <= |p.slots|
  {
    AfterSampling(p, Gate(reply, t1, t4), env)
  }

  /** The system state after a sync with the given outcome. */
  function SysAfter(s: SysState, o: Outcome, h: Header, t4: Timestamp, env: SyncEnv): SysState {
    match o
    case UnreliablePeer | TooFar => s.(synced := false, stratum := STRATUM_UNSYNC)
    case TooSlow | NoSamples => s.(synced := false)
    case Accepted(m) =>
      SysState(
        LocalStratum(h.stratum) <= 15, LocalStratum(h.stratum), h.Li(),
        if env.peerAddress.Some? then env.peerAddress.value else REF_ID_LOCL,
        t4, U16_16FromUs(m.delayUs), env.rootDisp,
        AdjustPollInterval(s.poll, h.poll, m.delayUs, m.offsetUs))
    case _ => s
  }

  /** One sync: system state and pool together. */
  datatype World = World(sys: SysState, pool: PoolState) {
    ghost predicate Valid() {
      pool.count <= |pool.slots| == MAX_SAMPLES
    }
  }

  datatype Sync = Sync(reply: seq<u8>, t1: Timestamp, t4: Timestamp, env: SyncEnv)

  function Synced(w: World, e: Sync): (r: World)
    requires w.Valid()
    ensures r.Valid()
  {
    var o := SyncOutcome(w.pool, e.reply, e.t1, e.t4, e.env);
    World(if |e.reply| >= HEADER_SIZE then SysAfter(w.sys, o, Decode(e.reply), e.t4, e.env) else w.sys,
          PoolAfterGate(w.pool, Gate(e.reply, e.t1, e.t4), e.env))
  }

  // ---------- what the gates ask for, by the bytes ----------

  /** A reply gets as far as a measurement: version 4, server mode, no alarm, a stratum of at most 16,
      the client's own origin timestamp, a transmit timestamp, and no more holding time than the round
      trip took. */
  predicate Measurable(reply: seq<u8>, t1: Timestamp, t4: Timestamp) {
    && |reply| >= 48
    && reply[0] / 64 != 3 && reply[0] / 8 % 8 == 4 && reply[0] % 8 == 4 && reply[1] <= 16
    && var h := Decode(reply);
    && h.origTs == t1 && h.xmitTs != Timestamp(0, 0)
    && Nanoseconds(t4) - Nanoseconds(t1) >= Nanoseconds(h.xmitTs) - Nanoseconds(h.recvTs)
  }

  /** A reply is judged by what it measures exactly when it gets that far; then it is refused for a
      stratum of 0 or 16, else for an offset beyond a second, else for a delay above ten seconds, and
      otherwise accepted.  Any other reply ends at one of the gates before. */
  lemma JudgedByBytes(reply: seq<u8>, t1: Timestamp, t4: Timestamp)
    ensures Measurable(reply, t1, t4) ==>
      var h := Decode(reply);
      && DelayOffset(t1, h.recvTs, h.xmitTs, t4).Some?
      && var m := DelayOffset(t1, h.recvTs, h.xmitTs, t4).value;
      Gate(reply, t1, t4) ==
        if reply[1] == 0 || reply[1] == 16 then UnreliablePeer
        else if m.offsetUs > 1000000 || m.offsetUs < -1000000 then TooFar
        else if m.delayUs > 10000000 then TooSlow
        else Accepted(m)
    ensures !Measurable(reply, t1, t4) ==>
      Gate(reply, t1, t4) in {Unparsed, Alarm, WrongMode, BogusOrigin, NoTransmit, NegativeDelay}
  {
    hide Nanoseconds, ReadU32be, ReadTimestamp, DelayOffset;
    if |reply| >= 48 {
      var h := Decode(reply);
      DecodeLayout(reply);
      ParsedByBytes(reply);
      MeasuredExactly(t1, h.recvTs, h.xmitTs, t4);
    }
  }

  /** A reply that claims to have been held longer than the round trip took is never accepted and
      changes neither the system state nor the pool, whatever else it says. */
  lemma HeldTooLongIsRefused(w: World, e: Sync)
    requires w.Valid() && |e.reply| >= 48
    requires var h := Decode(e.reply);
      Nanoseconds(e.t4) - Nanoseconds(e.t1) < Nanoseconds(h.xmitTs) - Nanoseconds(h.recvTs)
    ensures !SyncOutcome(w.pool, e.reply, e.t1, e.t4, e.env).Accepted? && Synced(w, e) == w
  {
    hide Decode, Nanoseconds;
    JudgedByBytes(e.reply, e.t1, e.t4);
  }

  /** What a sync makes of the system state.  An accepted reply is taken over: one stratum below its
      server, 15 at most, its leap indicator, the time of its arrival, its delay in the short format.
      A reply refused for its stratum or offset ends synchronisation and resets the stratum; one
      refused for its delay, or for lack of samples, ends synchronisation; any other changes
      nothing. */
  lemma SyncedOutright(w: World, e: Sync)
    requires w.Valid()
    ensures var o, s, s' := SyncOutcome(w.pool, e.reply, e.t1, e.t4, e.env), w.sys, Synced(w, e).sys;
      && (o.Accepted? ==>
            && |e.reply| >= 48 && 1 <= e.reply[1] <= 15
            && s'.synced && s'.stratum == Min(15, e.reply[1] + 1) && s'.li == e.reply[0] / 64
            && s'.refTs == e.t4 && s'.rootDelay == Min(0xFFFF_FFFF, o.m.delayUs * 65536 / 1000000)
            && s'.rootDisp == e.env.rootDisp
            && s'.refId == (match e.env.peerAddress case Some(ip) => ip case None => 0x4C4F434C)
            && s'.poll == AdjustPollInterval(s.poll, Decode(e.reply).poll, o.m.delayUs, o.m.offsetUs))
      && (o == UnreliablePeer || o == TooFar ==> s' == s.(synced := false, stratum := 16))
      && (o == TooSlow || o == NoSamples ==> s' == s.(synced := false))
      && (o in {Unparsed, Alarm, WrongMode, KissOfDeath, BogusOrigin, NoTransmit, NegativeDelay} ==>
            Synced(w, e) == w)
  {
    hide Nanoseconds, ReadU32be, ReadTimestamp, DelayOffset, U16_16FromUs, AdjustPollInterval, FilteredPool, Stored;
    JudgedByBytes(e.reply, e.t1, e.t4);
    var o := SyncOutcome(w.pool, e.reply, e.t1, e.t4, e.env);
    if o.Accepted? {
      DecodeLayout(e.reply);
      U16_16Saturates(o.m.delayUs);
    }
  }

  /** What an accepted measurement does to the pool: its sample goes behind the live ones, if the wall
      clock could be read and there is room, and three or more samples are filtered in place with
      multiplier 3. */
  lemma PoolAfterSync(w: World, e: Sync)
    requires w.Valid() && Gate(e.reply, e.t1, e.t4).Accepted?
    ensures var m, p := Gate(e.reply, e.t1, e.t4).m, w.pool;
      var stored := Stored(p, m, e.env);
      && FilterTheorems.Live(stored) == FilterTheorems.Live(p) +
           (if e.env.sampleTime.Some? && p.count < 64
            then [NtpSample(e.env.sampleTime.value, m.delayUs, m.offsetUs)] else [])
      && (stored.count < 3 ==> Synced(w, e).pool == stored)
      && (stored.count >= 3 ==>
            Synced(w, e).pool == LivePass(stored, Cutoff(FilterTheorems.Live(stored), 3), stored.count).0)
  {
    hide Gate, LivePass, Cutoff;
    var m := Gate(e.reply, e.t1, e.t4).m;
    if e.env.sampleTime.Some? {
      FilterTheorems.StoredBehind(w.pool, NtpSample(e.env.sampleTime.value, m.delayUs, m.offsetUs));
    }
    assert FilterTheorems.Live(w.pool) + [] == FilterTheorems.Live(w.pool);
  }

  /** A reply that echoes any origin timestamp but the client's own is not accepted and changes
      neither the system state nor the pool. */
  lemma OtherOriginIsRejected(w: World, e: Sync)
    requires w.Valid() && |e.reply| >= HEADER_SIZE && Decode(e.reply).origTs != e.t1
    ensures !SyncOutcome(w.pool, e.reply, e.t1, e.t4, e.env).Accepted?
    ensures Synced(w, e) == w
  {
  }

  /** The exit for lack of samples is taken exactly when the pool is empty and the wall clock
      could not be read: never after a sample was stored. */
  lemma NoSamplesOnlyWhenEmpty(p: PoolState, e: Sync)
    requires p.count <= |p.slots| == MAX_SAMPLES
    requires Gate(e.reply, e.t1, e.t4).Accepted?
    ensures SyncOutcome(p, e.reply, e.t1, e.t4, e.env) == NoSamples <==> p.count == 0 && e.env.sampleTime == None
  {
    var stored := Stored(p, Gate(e.reply, e.t1, e.t4).m, e.env);
    if stored.count >= 3 {
      FilterTheorems.LiveFilterNeverEmpties(stored, MARX_K);
    }
  }

  // ---------- the server ----------

  /** The mode of a response; zero when there is none. */
  function ResponseMode(mode: int, broadcastMode: bool): (m: u8)
    ensures m < 8
  {
    if mode == MODE_CLIENT then MODE_SERVER
    else if mode == MODE_SYMMETRIC_ACTIVE || mode == MODE_SYMMETRIC_PASSIVE then MODE_SYMMETRIC_PASSIVE
    else if mode == MODE_BROADCAST && broadcastMode then MODE_BROADCAST
    else 0
  }

  /** A request of mode 3 is answered in mode 4, modes 1 and 2 in mode 2, mode 5, if switched on, in
      mode 5; modes 0, 4, 6 and 7 get no answer. */
  lemma AnsweredModes(mode: int, broadcastMode: bool)
    ensures mode == 3 ==> ResponseMode(mode, broadcastMode) == 4
    ensures mode == 1 || mode == 2 ==> ResponseMode(mode, broadcastMode) == 2
    ensures mode == 5 ==> ResponseMode(mode, broadcastMode) == if broadcastMode then 5 else 0
    ensures mode !in {1, 2, 3, 5} ==> ResponseMode(mode, broadcastMode) == 0
  {
  }

  /** The header of a response to request `req`. */
  function ResponseHeader(s: SysState, precision: i8, req: Header, mode: u8, t2: Timestamp, t3: Timestamp): Header
    requires mode < 8
  {
    Header(
      PackLiVnMode(if s.synced then s.li else LI_ALARM, NTP_VN_4, mode),
      if s.synced then s.stratum else STRATUM_UNSYNC,
      req.poll, precision,
      if s.synced then s.rootDelay else 0,
      if s.synced then s.rootDisp else 0,
      if s.synced then s.refId else REF_ID_LOCL,
      if s.synced then s.refTs else ZERO_TIMESTAMP,
      req.xmitTs, t2, t3)
  }

  /** The header of the response the server gives to a request. */
  function Answer(s: SysState, precision: i8, req: Header, broadcastMode: bool, t2: Timestamp, t3: Timestamp): Header {
    ResponseHeader(s, precision, req, ResponseMode(req.Mode(), broadcastMode), t2, t3)
  }

  /** Field by field, what a response says: version 4, the mode that answers the request, the poll of
      the request, the server's precision, the transmit time of the request as origin, and the times of
      receipt and answer; and of the server its system state while it is synchronised, else the alarm
      indicator, stratum 16, zeros, and the reference id of a local clock. */
  lemma AnswerOutright(s: SysState, precision: i8, req: Header, broadcastMode: bool, t2: Timestamp, t3: Timestamp)
    requires s.synced ==> s.li <= 3
    ensures var a := Answer(s, precision, req, broadcastMode, t2, t3);
      && a.Vn() == 4 && a.Mode() == ResponseMode(req.Mode(), broadcastMode)
      && a.poll == req.poll && a.precision == precision
      && a.origTs == req.xmitTs && a.recvTs == t2 && a.xmitTs == t3
      && (s.synced ==>
            && a.Li() == s.li && a.stratum == s.stratum && a.rootDelay == s.rootDelay && a.rootDisp == s.rootDisp
            && a.refId == s.refId && a.refTs == s.refTs)
      && (!s.synced ==>
            && a.Li() == 3 && a.stratum == 16 && a.rootDelay == 0 && a.rootDisp == 0
            && a.refId == 0x4C4F434C && a.refTs == Timestamp(0, 0))
  {
    PackUnpack(if s.synced then s.li else LI_ALARM, NTP_VN_4, ResponseMode(req.Mode(), broadcastMode),
               Answer(s, precision, req, broadcastMode, t2, t3));
  }

  /** What the next response says after a sync: after an accepted reply one stratum more than that
      server's, 15 at most, and what else was taken over; after one refused on its measurement, or for
      lack of samples, the alarm. */
  lemma AnswerAfterSync(w: World, e: Sync, precision: i8, req: Header, broadcastMode: bool, t2: Timestamp, t3: Timestamp)
    requires w.Valid() && Consistent(w.sys)
    ensures var o := SyncOutcome(w.pool, e.reply, e.t1, e.t4, e.env);
      var a := Answer(Synced(w, e).sys, precision, req, broadcastMode, t2, t3);
      && (o.Accepted? ==>
            && |e.reply| >= 48
            && a.stratum == Min(15, e.reply[1] + 1) && a.Li() == e.reply[0] / 64 && a.refTs == e.t4
            && a.rootDelay == Min(0xFFFF_FFFF, o.m.delayUs * 65536 / 1000000) && a.rootDisp == e.env.rootDisp
            && a.refId == (match e.env.peerAddress case Some(ip) => ip case None => 0x4C4F434C))
      && (o in {UnreliablePeer, TooFar, TooSlow, NoSamples} ==> a.Li() == 3 && a.stratum == 16)
  {
    hide Synced, SyncOutcome, Answer;
    SyncedOutright(w, e);
    if SyncOutcome(w.pool, e.reply, e.t1, e.t4, e.env).Accepted? {
      assert e.reply[0] / 64 <= 3;
    }
    AnswerOutright(Synced(w, e).sys, precision, req, broadcastMode, t2, t3);
  }

  /** What synchronisation guarantees about the announced stratum and leap indicator. */
  predicate Consistent(s: SysState) {
    s.synced ==> 2 <= s.stratum <= 15 && s.li <= 2
  }

  function WorldAfter(w: World, run: seq<Sync>): (r: World)
    requires w.Valid()
    ensures r.Valid()
  {
    if run == [] then w else Synced(WorldAfter(w, run[..|run|-1]), run[|run|-1])
  }

  /** The outcome of the i-th sync of a run. */
  function OutcomeAt(w: World, run: seq<Sync>, i: nat): Outcome
    requires w.Valid() && i < |run|
  {
    SyncOutcome(WorldAfter(w, run[..i]).pool, run[i].reply, run[i].t1, run[i].t4, run[i].env)
  }

  /** Outcomes that decide whether the clock counts as synchronised, and those that set the stratum. */
  predicate Decides(o: Outcome) {
    o.Accepted? || o.UnreliablePeer? || o.TooFar? || o.TooSlow? || o.NoSamples?
  }

  predicate SetsStratum(o: Outcome) {
    o.Accepted? || o.UnreliablePeer? || o.TooFar?
  }

  /** What the last sync of a run does to the stratum and to synchronisation. */
  lemma LastSync(w: World, run: seq<Sync>)
    requires w.Valid() && run != []
    ensures var n := |run| - 1;
      var o, before, s := OutcomeAt(w, run, n), WorldAfter(w, run[..n]).sys, WorldAfter(w, run).sys;
      && (o.Accepted? ==>
            && |run[n].reply| >= 48 && s.synced && s.stratum == Min(15, run[n].reply[1] + 1)
            && s.li == run[n].reply[0] / 64 && s.refTs == run[n].t4)
      && (Decides(o) && !o.Accepted? ==> !s.synced)
      && (SetsStratum(o) && !o.Accepted? ==> s.stratum == 16)
      && (!Decides(o) ==> s == before)
      && (!SetsStratum(o) ==> s.stratum == before.stratum)
  {
    hide Synced, SyncOutcome;
    SyncedOutright(WorldAfter(w, run[..|run|-1]), run[|run|-1]);
  }

  /** Over a run the stratum is set by the last reply that was accepted or refused for its stratum or
      offset: one more than its own, 15 at most, or 16. */
  lemma {:induction false} LastReplySetsStratum(w: World, run: seq<Sync>, i: nat)
    requires w.Valid() && i < |run| && SetsStratum(OutcomeAt(w, run, i))
    requires forall j | i < j < |run| :: !SetsStratum(OutcomeAt(w, run, j))
    ensures var s := WorldAfter(w, run).sys.stratum;
      if OutcomeAt(w, run, i).Accepted? then |run[i].reply| >= 48 && s == Min(15, run[i].reply[1] + 1) else s == 16
  {
    hide WorldAfter, OutcomeAt, SetsStratum, Decides;
    var n := |run| - 1;
    LastSync(w, run);
    if i < n {
      assert !SetsStratum(OutcomeAt(w, run, n));
      OutcomesOfPrefix(w, run, n);
      LastReplySetsStratum(w, run[..n], i);
    }
  }

  /** Over a run the last reply that was accepted, or refused on its measurement or for lack of
      samples, decides what is announced: after an acceptance that server's leap indicator and the time
      of that reply, otherwise nothing but the alarm. */
  lemma {:induction false} LastReplyDecides(w: World, run: seq<Sync>, i: nat)
    requires w.Valid() && i < |run| && Decides(OutcomeAt(w, run, i))
    requires forall j | i < j < |run| :: !Decides(OutcomeAt(w, run, j))
    ensures var s := WorldAfter(w, run).sys;
      && (s.synced <==> OutcomeAt(w, run, i).Accepted?)
      && (s.synced ==>
            |run[i].reply| >= 48 && s.stratum == Min(15, run[i].reply[1] + 1)
            && s.li == run[i].reply[0] / 64 && s.refTs == run[i].t4)
  {
    hide WorldAfter, OutcomeAt, SetsStratum, Decides;
    var n := |run| - 1;
    LastSync(w, run);
    if i < n {
      assert !Decides(OutcomeAt(w, run, n));
      OutcomesOfPrefix(w, run, n);
      LastReplyDecides(w, run[..n], i);
    }
  }

  /** When no reply of a run decides anything, the system state is the one before. */
  lemma {:induction false} NothingDecided(w: World, run: seq<Sync>)
    requires w.Valid() && forall j | 0 <= j < |run| :: !Decides(OutcomeAt(w, run, j))
    ensures WorldAfter(w, run).sys == w.sys
  {
    if run != [] {
      var n := |run| - 1;
      LastSync(w, run);
      OutcomesOfPrefix(w, run, n);
      NothingDecided(w, run[..n]);
    }
  }

  /** Until a reply is accepted, a started daemon announces the alarm and stratum 16. */
  lemma {:induction false} AlarmUntilAccepted(pool: PoolState, run: seq<Sync>, precision: i8, req: Header,
                                              broadcastMode: bool, t2: Timestamp, t3: Timestamp)
    requires pool.count <= |pool.slots| == MAX_SAMPLES
    requires forall j | 0 <= j < |run| :: !OutcomeAt(World(STARTUP, pool), run, j).Accepted?
    ensures !WorldAfter(World(STARTUP, pool), run).sys.synced
    ensures var a := Answer(WorldAfter(World(STARTUP, pool), run).sys, precision, req, broadcastMode, t2, t3);
      a.Li() == 3 && a.stratum == 16
  {
    var w := World(STARTUP, pool);
    if run != [] {
      hide OutcomeAt, Answer;
      var n := |run| - 1;
      LastSync(w, run);
      OutcomesOfPrefix(w, run, n);
      assert !OutcomeAt(w, run, n).Accepted?;
      AlarmUntilAccepted(pool, run[..n], precision, req, broadcastMode, t2, t3);
    }
    AnswerOutright(WorldAfter(w, run).sys, precision, req, broadcastMode, t2, t3);
  }

  lemma OutcomesOfPrefix(w: World, run: seq<Sync>, n: nat)
    requires w.Valid() && n <= |run|
    ensures forall j | 0 <= j < n :: OutcomeAt(w, run[..n], j) == OutcomeAt(w, run, j)
  {
    forall j | 0 <= j < n ensures OutcomeAt(w, run[..n], j) == OutcomeAt(w, run, j) {
      assert run[..n][..j] == run[..j];
    }
  }

  lemma {:induction false} RunStaysConsistent(w: World, run: seq<Sync>)
    requires w.Valid() && Consistent(w.sys)
    ensures Consistent(WorldAfter(w, run).sys)
  {
    if run != [] {
      RunStaysConsistent(w, run[..|run|-1]);
      SyncKeepsConsistent(WorldAfter(w, run[..|run|-1]), run[|run|-1]);
    }
  }

  lemma SyncKeepsConsistent(w: World, e: Sync)
    requires w.Valid() && Consistent(w.sys)
    ensures Consistent(Synced(w, e).sys)
  {
    var o := SyncOutcome(w.pool, e.reply, e.t1, e.t4, e.env);
    if o.Accepted? {
      AcceptedHeader(e);
    }
  }

  lemma AcceptedHeader(e: Sync)
    requires Gate(e.reply, e.t1, e.t4).Accepted?
    ensures |e.reply| >= HEADER_SIZE
    ensures var h := Decode(e.reply); 1 <= h.stratum <= 15 && h.Li() <= 2 && 2 <= LocalStratum(h.stratum) <= 15
  {
    var h := Decode(e.reply);
    assert h.Li() <= 3;
  }

  /** Every response after every run of syncs announces the alarm leap indicator exactly when it
      announces stratum 16; otherwise leap indicator 0 to 2 and stratum 2 to 15. */
  lemma ResponsesAreConsistent(run: seq<Sync>, pool: PoolState, precision: i8, req: Header, mode: u8, t2: Timestamp, t3: Timestamp)
    requires pool.count <= |pool.slots| == MAX_SAMPLES && 1 <= mode < 8
    ensures var h := ResponseHeader(WorldAfter(World(STARTUP, pool), run).sys, precision, req, mode, t2, t3);
      && (h.Li() == 3 <==> h.stratum == 16)
      && (h.Li() != 3 ==> 2 <= h.stratum <= 15)
      && h.Mode() == mode && WellFormed(h)
  {
    var w := World(STARTUP, pool);
    RunStaysConsistent(w, run);
    var s := WorldAfter(w, run).sys;
    PackUnpack(if s.synced then s.li else LI_ALARM, NTP_VN_4, mode, ResponseHeader(s, precision, req, mode, t2, t3));
  }

  /** The offsets accepted during a run, in order: what the discipline is fed. */
  function AcceptedOffsets(w: World, run: seq<Sync>): seq<int>
    requires w.Valid()
  {
    if run == [] then []
    else
      var before, e := run[..|run|-1], run[|run|-1];
      var o := SyncOutcome(WorldAfter(w, before).pool, e.reply, e.t1, e.t4, e.env);
      if o.Accepted? then AcceptedOffsets(w, before) + [o.m.offsetUs as int] else AcceptedOffsets(w, before)
  }

  lemma {:induction false} AcceptedOffsetsGated(w: World, run: seq<Sync>)
    requires w.Valid()
    ensures forall i | 0 <= i < |AcceptedOffsets(w, run)| :: Abs(AcceptedOffsets(w, run)[i]) <= MAXDIST
  {
    if run != [] {
      AcceptedOffsetsGated(w, run[..|run|-1]);
      var e := run[|run|-1];
      GateBoundsOffset(e.reply, e.t1, e.t4);
    }
  }

  lemma GateBoundsOffset(reply: seq<u8>, t1: Timestamp, t4: Timestamp)
    ensures Gate(reply, t1, t4).Accepted? ==> Abs(Gate(reply, t1, t4).m.offsetUs) <= MAXDIST
  {
  }

  /** Whatever servers answer, and whenever the syncs happen, the offsets a client accepts never
      steer its frequency: fed to a fresh discipline they leave it in the deadband, and none of them
      hands anything to the kernel. */
  lemma SyncsNeverSteerFrequency(w: World, run: seq<Sync>, samples: seq<FrequencyDiscipline.Sample>)
    requires w.Valid() && |samples| == |AcceptedOffsets(w, run)|
    requires forall i | 0 <= i < |samples| :: samples[i].offsetUs == AcceptedOffsets(w, run)[i]
    ensures var f := FrequencyDiscipline.AfterSamples(FrequencyDiscipline.Initial(), samples);
      f.ppmFilter == 0.0 && FrequencyDiscipline.RealAbs(f.ppm) < FrequencyDiscipline.FREQ_DEADBAND_PPM
    ensures forall i | 0 <= i < |samples| ::
      FrequencyDiscipline.Applied(
        FrequencyDiscipline.AfterSamples(FrequencyDiscipline.Initial(), samples[..i]), samples[i]) == None
  {
    AcceptedOffsetsGated(w, run);
    FrequencyDiscipline.GatedMeasurementsAreInert(samples);
    forall i | 0 <= i < |samples|
      ensures FrequencyDiscipline.Applied(
        FrequencyDiscipline.AfterSamples(FrequencyDiscipline.Initial(), samples[..i]), samples[i]) == None
    {
      assert samples[..i+1][..i] == samples[..i];
      FrequencyDiscipline.GatedMeasurementsAreInert(samples[..i+1]);
    }
  }

  /** Over every run of syncs with servers that poll at 4 or more, the local poll exponent stays in
      its range. */
  lemma {:induction false} RunKeepsPollInRange(w: World, run: seq<Sync>)
    requires w.Valid() && PollInRange(w.sys.poll)
    requires forall i | 0 <= i < |run| && |run[i].reply| >= HEADER_SIZE :: Decode(run[i].reply).poll >= POLL_INTERVAL_MIN
    ensures PollInRange(WorldAfter(w, run).sys.poll)
  {
    if run != [] {
      RunKeepsPollInRange(w, run[..|run|-1]);
    }
  }

  /** A full pool without outliers is frozen: it drops every new sample and filtering leaves it
      alone, so no later measurement ever enters it, over any run. */
  lemma {:induction false} FullPoolIsFrozen(w: World, run: seq<Sync>)
    requires w.Valid() && w.pool.count == 64
    requires forall j | 0 <= j < 64 :: w.pool.slots[j].delay <= Cutoff(FilterTheorems.Live(w.pool), 3)
    ensures WorldAfter(w, run).pool == w.pool
  {
    if run != [] {
      FullPoolIsFrozen(w, run[..|run|-1]);
      FilterTheorems.LivePassIdentity(w.pool, Cutoff(FilterTheorems.Live(w.pool), MARX_K), MAX_SAMPLES);
    }
  }

  /** And only such a pool is frozen: an accepted measurement leaves a full pool as it is exactly
      when none of its samples is an outlier; otherwise the pool shrinks and takes samples
      again. */
  lemma FullPoolStep(w: World, e: Sync)
    requires w.Valid() && w.pool.count == 64 && Gate(e.reply, e.t1, e.t4).Accepted?
    ensures var clean := forall j | 0 <= j < 64 :: w.pool.slots[j].delay <= Cutoff(FilterTheorems.Live(w.pool), 3);
      && (Synced(w, e).pool == w.pool <==> clean)
      && (!clean ==> Synced(w, e).pool.count < 64)
  {
    var p, threshold := w.pool, Cutoff(FilterTheorems.Live(w.pool), MARX_K);
    assert Synced(w, e).pool == LivePass(p, threshold, MAX_SAMPLES).0;
    FilterTheorems.LivePassIdentity(p, threshold, MAX_SAMPLES);
    FilterTheorems.OutlierShrinksPool(p, threshold, MAX_SAMPLES);
  }

  // ---------- a whole exchange, through bytes ----------

  /** The response of a synchronised server to any request of mode 3 is in mode 4, and the client that
      sent the request lets it through to the measurement.  The one exception is a response sent at the
      first instant of the era, whose transmit timestamp is zero. */
  lemma AnswerPassesGates(request: seq<u8>, x: Exchange, server: SysState, serverPrecision: i8,
                          broadcastMode: bool, tail: seq<u8>)
    requires x.Valid() && server.synced && Consistent(server)
    requires |request| >= 48 && request[0] % 8 == 3 && Decode(request).xmitTs == Stamp(x.T1())
    ensures var answer := Answer(server, serverPrecision, Decode(request), broadcastMode, Stamp(x.T2()), Stamp(x.T3()));
      && answer.Mode() == 4 && Encode(answer)[0] % 8 == 4
      && Gate(Encode(answer) + tail, Stamp(x.T1()), Stamp(x.T4())) ==
           (if x.T3() == ERA_START then NoTransmit
            else match x.Measured()
              case None => NegativeDelay
              case Some(m) => MeasurementGate(server.stratum, m))
  {
    hide Encode, Stamp, ReadU32be, ReadTimestamp;
    var t1, asked := Stamp(x.T1()), Decode(request);
    var answer := Answer(server, serverPrecision, asked, broadcastMode, Stamp(x.T2()), Stamp(x.T3()));
    DecodeEncode(answer, tail);
    AnswerGate(answer, x, server, t1);
    PackUnpack(server.li, NTP_VN_4, MODE_SERVER, answer);
    EncodeLayout(answer);
  }

  /** So it is for the requests the client builds: parsed by the server, answered, and parsed back. */
  lemma ExchangePassesGates(poll: i8, precision: i8, x: Exchange, server: SysState, serverPrecision: i8,
                            broadcastMode: bool, more: seq<u8>, tail: seq<u8>)
    requires x.Valid() && server.synced && Consistent(server)
    ensures var request := Encode(RequestHeader(poll, precision, Stamp(x.T1()))) + more;
      var answer := Answer(server, serverPrecision, Decode(request), broadcastMode, Stamp(x.T2()), Stamp(x.T3()));
      && WellFormed(Decode(request)) && Decode(request).Mode() == 3 && answer.Mode() == 4
      && Gate(Encode(answer) + tail, Stamp(x.T1()), Stamp(x.T4())) ==
           (if x.T3() == ERA_START then NoTransmit
            else match x.Measured()
              case None => NegativeDelay
              case Some(m) => MeasurementGate(server.stratum, m))
  {
    hide Encode, Stamp, Answer, Gate, ReadU32be, ReadTimestamp;
    var asked := RequestHeader(poll, precision, Stamp(x.T1()));
    var request := Encode(asked) + more;
    DecodeEncode(asked, more);
    PackUnpack(0, NTP_VN_4, MODE_CLIENT, asked);
    AnswerPassesGates(request, x, server, serverPrecision, broadcastMode, tail);
  }

  lemma AnswerGate(answer: Header, x: Exchange, server: SysState, t1: Timestamp)
    requires x.Valid() && server.synced && Consistent(server) && t1 == Stamp(x.T1())
    requires answer.liVnMode == PackLiVnMode(server.li, NTP_VN_4, MODE_SERVER) && answer.stratum == server.stratum
    requires answer.origTs == t1 && answer.recvTs == Stamp(x.T2()) && answer.xmitTs == Stamp(x.T3())
    ensures WellFormed(answer)
    ensures HeaderGate(answer, t1, Stamp(x.T4())) ==
      (if x.T3() == ERA_START then NoTransmit
       else match x.Measured()
         case None => NegativeDelay
         case Some(m) => MeasurementGate(server.stratum, m))
  {
    PackUnpack(server.li, NTP_VN_4, MODE_SERVER, answer);
    StampLosesOneAtMost(x.T3());
  }

  /** End to end: when the client accepts the answer, the offset it applies is within half the
      delay it measured, plus 1.501 microseconds, of the true difference of the clocks. */
  lemma AcceptedOffsetIsAccurate(poll: i8, precision: i8, x: Exchange, server: SysState, serverPrecision: i8,
                                 broadcastMode: bool, more: seq<u8>, tail: seq<u8>)
    requires x.Valid() && server.synced && Consistent(server)
    ensures var request := Encode(RequestHeader(poll, precision, Stamp(x.T1()))) + more;
      var answer := Answer(server, serverPrecision, Decode(request), broadcastMode, Stamp(x.T2()), Stamp(x.T3()));
      var o := Gate(Encode(answer) + tail, Stamp(x.T1()), Stamp(x.T4()));
      o.Accepted? ==> Abs(1000 * o.m.offsetUs - x.theta) <= 500 * o.m.delayUs + 1501
  {
    ExchangePassesGates(poll, precision, x, server, serverPrecision, broadcastMode, more, tail);
    AcceptedIsAccurate(x, server.stratum);
  }

  lemma AcceptedIsAccurate(x: Exchange, stratum: u8)
    requires x.Valid()
    ensures x.Measured().Some? && MeasurementGate(stratum, x.Measured().value).Accepted? ==>
      var m := MeasurementGate(stratum, x.Measured().value).m;
      Abs(1000 * m.offsetUs - x.theta) <= 500 * m.delayUs + 1501
  {
    if x.Measured().Some? {
      OffsetWithinHalfDelay(x);
    }
  }

  /** An unsynchronised server is never believed. */
  lemma UnsyncedServerIsIgnored(req: Header, server: SysState, precision: i8, broadcastMode: bool,
                                t2: Timestamp, t3: Timestamp, t1: Timestamp, t4: Timestamp)
    requires !server.synced && req.Mode() == 3
    ensures Gate(Encode(Answer(server, precision, req, broadcastMode, t2, t3)), t1, t4) == Alarm
  {
    var answer := Answer(server, precision, req, broadcastMode, t2, t3);
    DecodeEncodeAlone(answer);
    UnsyncedHeader(answer, t1, t4);
  }

  lemma UnsyncedHeader(h: Header, t1: Timestamp, t4: Timestamp)
    requires h.liVnMode == PackLiVnMode(LI_ALARM, NTP_VN_4, MODE_SERVER) && h.stratum == STRATUM_UNSYNC
    ensures WellFormed(h) && HeaderGate(h, t1, t4) == Alarm
  {
    PackUnpack(LI_ALARM, NTP_VN_4, MODE_SERVER, h);
  }
}
