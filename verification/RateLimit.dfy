/** The bounded rate-limit table: an array used as a queue, scanned linearly, that evicts its
    oldest entry when full. */
module RateLimit {
  import opened Words
  import opened MaskBits

  const MAX_RATE_LIMIT_ENTRIES := 1024

  datatype Entry = Entry(ip: Ip, lastRequest: int, count: u8)

  /** Index of the client's entry, or the length when it has none. */
  function Find(table: seq<Entry>, ip: Ip): (i: nat)
    ensures i <= |table|
    ensures i < |table| ==> table[i].ip == ip
    ensures forall j | 0 <= j < i :: table[j].ip != ip
  {
    FindFrom(table, ip, 0)
  }

  function FindFrom(table: seq<Entry>, ip: Ip, from: nat): (i: nat)
    requires from <= |table|
    ensures from <= i <= |table|
    ensures i < |table| ==> table[i].ip == ip
    ensures forall j | from <= j < i :: table[j].ip != ip
    decreases |table| - from
  {
    if from == |table| || table[from].ip == ip then from else FindFrom(table, ip, from + 1)
  }

  /** The table after `ip` is served at time `now`: its entry is stamped, and made first if it is
      missing, in place of the oldest entry when there is no room. */
  function Served(table: seq<Entry>, ip: Ip, now: int): (r: seq<Entry>)
    requires |table| <= MAX_RATE_LIMIT_ENTRIES
    ensures |r| <= MAX_RATE_LIMIT_ENTRIES
  {
    var i := Find(table, ip);
    if ip == 0 then table
    else if i < |table| then table[i := Entry(ip, now, (table[i].count + 1) % 0x100)]
    else
      (if |table| >= MAX_RATE_LIMIT_ENTRIES then table[1..] else table) + [Entry(ip, now, 1)]
  }

  /** Whether a request at time `now` is refused. */
  predicate Limited(table: seq<Entry>, ip: Ip, now: int, interval: u8) {
    var i := Find(table, ip);
    ip != 0 && i < |table| && now - table[i].lastRequest < interval
  }

  class RateLimiter {
    const entries: array<Entry>
    var count: nat
    var interval: u8

    ghost predicate Valid()
      reads this
    {
      count <= entries.Length == MAX_RATE_LIMIT_ENTRIES
    }

    ghost function Table(): seq<Entry>
      requires Valid()
      reads this, entries
    {
      entries[..count]
    }

    constructor (interval: u8)
      ensures Valid() && fresh(entries) && Table() == [] && this.interval == interval
    {
      entries := new Entry[MAX_RATE_LIMIT_ENTRIES](_ => Entry(0, 0, 0));
      count := 0;
      this.interval := interval;
    }

    /** Scans for the client's entry; the address zero is not a client. */
    method FindEntry(ip: Ip) returns (found: Option<nat>)
      requires Valid()
      ensures found == if ip != 0 && Find(Table(), ip) < count then Some(Find(Table(), ip)) else None
    {
      if ip == 0 {
        return None;
      }
      for i := 0 to count
        invariant i <= Find(Table(), ip)
      {
        assert entries[i] == Table()[i];
        if entries[i].ip == ip {
          return Some(i);
        }
      }
      return None;
    }

    /** Shifts the whole table down by one. */
    method EvictOldest()
      requires Valid() && count == MAX_RATE_LIMIT_ENTRIES
      modifies this`count, entries
      ensures Valid() && Table() == old(Table())[1..]
    {
      forall i | 0 <= i < MAX_RATE_LIMIT_ENTRIES - 1 {
        entries[i] := entries[i + 1];
      }
      count := count - 1;
    }

    /** The client's entry, made if it is missing. */
    method Insert(ip: Ip) returns (at: Option<nat>)
      requires Valid()
      modifies this`count, entries
      ensures Valid() && (ip == 0 <==> at == None)
      ensures ip == 0 ==> Table() == old(Table())
      ensures ip != 0 ==>
        at.value < count && Table() == WithEntry(old(Table()), ip) && at.value == Find(Table(), ip)
    {
      if ip == 0 {
        return None;
      }
      at := FindEntry(ip);
      if at.Some? {
        return;
      }
      if count >= MAX_RATE_LIMIT_ENTRIES {
        EvictOldest();
      }
      ghost var base := Table();
      Append(Entry(ip, 0, 0));
      FoundLast(base, Entry(ip, 0, 0));
      return Some(count - 1);
    }

    method Append(e: Entry)
      requires Valid() && count < MAX_RATE_LIMIT_ENTRIES
      modifies this`count, entries
      ensures Valid() && count == old(count) + 1 && Table() == old(Table()) + [e]
    {
      ghost var base := Table();
      entries[count] := e;
      count := count + 1;
      assert Table() == base + [e];
    }

    method Update(ip: Ip, now: int)
      requires Valid()
      modifies this`count, entries
      ensures Valid() && Table() == Served(old(Table()), ip, now)
    {
      var at := Insert(ip);
      if at.Some? {
        var e := entries[at.value];
        entries[at.value] := Entry(e.ip, now, (e.count + 1) % 0x100);
      }
    }

    method Check(ip: Ip, now: int) returns (limited: bool)
      requires Valid()
      ensures limited == Limited(Table(), ip, now, interval)
    {
      var at := FindEntry(ip);
      if at == None {
        return false;
      }
      return now - entries[at.value].lastRequest < interval;
    }

    method Cleanup()
      requires Valid()
      modifies this`count
      ensures Valid() && Table() == []
    {
      count := 0;
    }
  }

  function WithEntry(table: seq<Entry>, ip: Ip): (r: seq<Entry>)
    requires |table| <= MAX_RATE_LIMIT_ENTRIES
    ensures |r| <= MAX_RATE_LIMIT_ENTRIES
  {
    if Find(table, ip) < |table| then table
    else (if |table| >= MAX_RATE_LIMIT_ENTRIES then table[1..] else table) + [Entry(ip, 0, 0)]
  }

  lemma FoundLast(base: seq<Entry>, e: Entry)
    requires forall j | 0 <= j < |base| :: base[j].ip != e.ip
    ensures Find(base + [e], e.ip) == |base|
  {
    var t := base + [e];
    assert t[|base|] == e && forall j | 0 <= j < |base| :: t[j] == base[j];
  }

  // ---------- runs ----------

  /** One update: the client served and when. */
  datatype Service = Service(ip: Ip, at: int)

  /** The table after a run of updates since start-up or cleanup. */
  function TableAfter(h: seq<Service>): (r: seq<Entry>)
    ensures |r| <= MAX_RATE_LIMIT_ENTRIES
  {
    if h == [] then [] else Served(TableAfter(h[..|h|-1]), h[|h|-1].ip, h[|h|-1].at)
  }

  /** The unbounded reference: the insertions in order.  A client is inserted when it is not among
      the most recent insertions. */
  function Log(h: seq<Service>): seq<Ip> {
    if h == [] then []
    else
      var l, ip := Log(h[..|h|-1]), h[|h|-1].ip;
      if ip == 0 || ip in Recent(l) then l else l + [ip]
  }

  /** The last 1024 insertions. */
  function Recent(l: seq<Ip>): (r: seq<Ip>)
    ensures |r| == Min(|l|, 1024)
  {
    l[Max(0, |l| - MAX_RATE_LIMIT_ENTRIES)..]
  }

  /** When the client was served last. */
  function LastServed(h: seq<Service>, ip: Ip): int {
    if h == [] then 0
    else if h[|h|-1].ip == ip then h[|h|-1].at
    else LastServed(h[..|h|-1], ip)
  }

  ghost predicate Distinct(s: seq<Ip>) {
    forall i, j | 0 <= i < j < |s| :: s[i] != s[j]
  }

  /** The table holds the given clients in the given order, each with the time it was last
      served. */
  ghost predicate Holds(table: seq<Entry>, clients: seq<Ip>, h: seq<Service>) {
    && |table| == |clients|
    && forall i | 0 <= i < |table| :: table[i].ip == clients[i] && table[i].lastRequest == LastServed(h, clients[i])
  }

  lemma RecentGrows(l: seq<Ip>, ip: Ip)
    ensures Recent(l + [ip]) ==
      (if |l| >= MAX_RATE_LIMIT_ENTRIES then Recent(l)[1..] else Recent(l)) + [ip]
  {
  }

  /** In every run the bounded table is the last 1024 insertions in order, without duplicates,
      each stamped with that client's last service. */
  lemma {:induction false} TableIsRecentLog(h: seq<Service>)
    ensures Distinct(Recent(Log(h))) && 0 !in Recent(Log(h))
    ensures Holds(TableAfter(h), Recent(Log(h)), h)
  {
    if h != [] {
      var before, s := h[..|h|-1], h[|h|-1];
      TableIsRecentLog(before);
      ServiceStep(TableAfter(before), Log(before), before, h, s);
    }
  }

  lemma ServiceStep(table: seq<Entry>, l: seq<Ip>, before: seq<Service>, h: seq<Service>, s: Service)
    requires h == before + [s] && |table| <= MAX_RATE_LIMIT_ENTRIES
    requires Distinct(Recent(l)) && 0 !in Recent(l) && Holds(table, Recent(l), before)
    ensures var l' := if s.ip == 0 || s.ip in Recent(l) then l else l + [s.ip];
      && Distinct(Recent(l')) && 0 !in Recent(l')
      && Holds(Served(table, s.ip, s.at), Recent(l'), h)
  {
    assert h[..|h|-1] == before;
    var i := Find(table, s.ip);
    if s.ip != 0 {
      if i < |table| {
        assert Recent(l)[i] == s.ip;
      } else {
        assert forall j | 0 <= j < |table| :: table[j].ip == Recent(l)[j];
        NewEntryStep(table, l, before, h, s);
      }
    }
  }

  /** A client that is not in the table is appended, and the oldest entry goes if there is no
      room. */
  lemma NewEntryStep(table: seq<Entry>, l: seq<Ip>, before: seq<Service>, h: seq<Service>, s: Service)
    requires h == before + [s] && |table| <= MAX_RATE_LIMIT_ENTRIES && s.ip != 0
    requires Distinct(Recent(l)) && 0 !in Recent(l) && s.ip !in Recent(l) && Holds(table, Recent(l), before)
    ensures Distinct(Recent(l + [s.ip])) && 0 !in Recent(l + [s.ip])
    ensures Holds((if |table| >= MAX_RATE_LIMIT_ENTRIES then table[1..] else table) + [Entry(s.ip, s.at, 1)],
                  Recent(l + [s.ip]), h)
  {
    hide Recent, LastServed;
    RecentGrows(l, s.ip);
    EvictOldest(Recent(l), s.ip);
    NewEntryHolds(table, Recent(l), before, h, s);
  }

  /** The clients of the table once a new one is appended and the oldest evicted if there is no
      room. */
  function Queued(clients: seq<Ip>, ip: Ip): seq<Ip> {
    (if |clients| >= MAX_RATE_LIMIT_ENTRIES then clients[1..] else clients) + [ip]
  }

  lemma EvictOldest(clients: seq<Ip>, ip: Ip)
    requires Distinct(clients) && 0 !in clients && ip !in clients && ip != 0
    ensures Distinct(Queued(clients, ip)) && 0 !in Queued(clients, ip)
  {
  }

  lemma NewEntryHolds(table: seq<Entry>, clients: seq<Ip>, before: seq<Service>, h: seq<Service>, s: Service)
    requires h == before + [s] && |table| <= MAX_RATE_LIMIT_ENTRIES
    requires s.ip !in clients && Holds(table, clients, before)
    ensures Holds((if |table| >= MAX_RATE_LIMIT_ENTRIES then table[1..] else table) + [Entry(s.ip, s.at, 1)],
                  Queued(clients, s.ip), h)
  {
    forall ip ensures LastServed(h, ip) == if ip == s.ip then s.at else LastServed(before, ip) {
      LastServedGrows(before, s, ip);
    }
    hide LastServed;
  }

  lemma LastServedGrows(before: seq<Service>, s: Service, ip: Ip)
    ensures LastServed(before + [s], ip) == if ip == s.ip then s.at else LastServed(before, ip)
  {
    assert (before + [s])[..|before|] == before;
  }

  /** How often the client was served since it was last inserted. */
  function ServedSince(h: seq<Service>, ip: Ip): nat {
    if h == [] then 0
    else
      var before := h[..|h|-1];
      if h[|h|-1].ip != ip then ServedSince(before, ip)
      else if ip in Recent(Log(before)) then ServedSince(before, ip) + 1
      else 1
  }

  /** In every run each entry counts its client's services since it was inserted, in one byte that
      wraps around. */
  lemma {:induction false} EntryCountsServices(h: seq<Service>)
    ensures forall e | e in TableAfter(h) :: e.count == ServedSince(h, e.ip) % 256
  {
    if h != [] {
      hide ServedSince, Served;
      var before, s := h[..|h|-1], h[|h|-1];
      var table := TableAfter(before);
      EntryCountsServices(before);
      TableIsRecentLog(before);
      forall i | 0 <= i < |TableAfter(h)|
        ensures TableAfter(h)[i].count == ServedSince(h, TableAfter(h)[i].ip) % 256
      {
        CountStep(table, Recent(Log(before)), before, h, s, i);
      }
    }
  }

  lemma ServedSinceGrows(h: seq<Service>, ip: Ip)
    requires h != []
    ensures var before, s := h[..|h|-1], h[|h|-1];
      ServedSince(h, ip) ==
        if s.ip != ip then ServedSince(before, ip)
        else if ip in Recent(Log(before)) then ServedSince(before, ip) + 1 else 1
  {
  }

  /** A service leaves the entries of other clients as they are and counts one up in its own. */
  lemma ServedEntries(table: seq<Entry>, ip: Ip, now: int, i: nat)
    requires |table| <= MAX_RATE_LIMIT_ENTRIES && i < |Served(table, ip, now)|
    requires forall j, k | 0 <= j < k < |table| :: table[j].ip != table[k].ip
    requires forall j | 0 <= j < |table| :: table[j].ip != 0
    ensures var e, at := Served(table, ip, now)[i], Find(table, ip);
      && (e.ip != ip ==> e in table)
      && (e.ip == ip ==> ip != 0 && e.count == if at < |table| then (table[at].count + 1) % 256 else 1)
  {
  }

  lemma TableClients(table: seq<Entry>, clients: seq<Ip>, h: seq<Service>, ip: Ip)
    requires Distinct(clients) && 0 !in clients && Holds(table, clients, h)
    ensures ip in clients <==> Find(table, ip) < |table|
    ensures forall j, k | 0 <= j < k < |table| :: table[j].ip != table[k].ip
    ensures forall j | 0 <= j < |table| :: table[j].ip != 0
  {
    assert forall j | 0 <= j < |table| :: table[j].ip == clients[j];
  }

  ghost predicate Counted(table: seq<Entry>, h: seq<Service>) {
    forall e | e in table :: e.count == ServedSince(h, e.ip) % 256
  }

  lemma CountStep(table: seq<Entry>, clients: seq<Ip>, before: seq<Service>, h: seq<Service>, s: Service, i: nat)
    requires h != [] && before == h[..|h|-1] && s == h[|h|-1] && |table| <= MAX_RATE_LIMIT_ENTRIES
    requires clients == Recent(Log(before)) && Distinct(clients) && 0 !in clients && Holds(table, clients, before)
    requires Counted(table, before) && i < |Served(table, s.ip, s.at)|
    ensures var e := Served(table, s.ip, s.at)[i];
      e.count == ServedSince(h, e.ip) % 256
  {
    hide Recent, Log, ServedSince, Served, Holds, Distinct, Find, Counted;
    TableClients(table, clients, before, s.ip);
    ServedEntries(table, s.ip, s.at, i);
    var e, at := Served(table, s.ip, s.at)[i], Find(table, s.ip);
    ServedSinceGrows(h, e.ip);
    if e.ip != s.ip {
      CountedEntry(table, before, e);
    } else if at < |table| {
      FoundEntry(table, s.ip);
      CountedEntry(table, before, table[at]);
      ByteCounter(ServedSince(before, s.ip));
    }
  }

  lemma CountedEntry(table: seq<Entry>, h: seq<Service>, e: Entry)
    requires Counted(table, h) && e in table
    ensures e.count == ServedSince(h, e.ip) % 256
  {
  }

  lemma ByteCounter(n: nat)
    ensures (n % 256 + 1) % 256 == (n + 1) % 256
  {
  }

  lemma FoundEntry(table: seq<Entry>, ip: Ip)
    requires Find(table, ip) < |table|
    ensures table[Find(table, ip)].ip == ip
  {
  }

  /** The refusals of the bounded table are those of the unbounded log: a client is refused
      exactly when it is among the last 1024 insertions and was served too recently. */
  lemma LimitedByLog(h: seq<Service>, ip: Ip, now: int, interval: u8)
    ensures Limited(TableAfter(h), ip, now, interval) <==>
      ip in Recent(Log(h)) && now - LastServed(h, ip) < interval
  {
    TableIsRecentLog(h);
    var i := Find(TableAfter(h), ip);
    if i < |TableAfter(h)| {
      assert Recent(Log(h))[i] == ip;
    } else {
      assert forall j | 0 <= j < |TableAfter(h)| :: TableAfter(h)[j].ip == Recent(Log(h))[j];
    }
  }

  ghost predicate Monotone(h: seq<Service>) {
    forall i, j | 0 <= i <= j < |h| :: h[i].at <= h[j].at
  }

  lemma {:induction false} LogExtends(h: seq<Service>, i: nat)
    requires i <= |h|
    ensures Log(h[..i]) <= Log(h)
    decreases |h|
  {
    if i < |h| {
      LogExtends(h[..|h|-1], i);
      assert h[..|h|-1][..i] == h[..i];
    } else {
      assert h[..i] == h;
    }
  }

  lemma {:induction false} LastServedIsLate(h: seq<Service>, i: nat)
    requires i < |h| && Monotone(h)
    ensures h[i].at <= LastServed(h, h[i].ip)
    decreases |h|
  {
    if h[|h|-1].ip != h[i].ip {
      LastServedIsLate(h[..|h|-1], i);
    }
  }

  /** Right after a service the client is among the recent insertions. */
  lemma OwnInsertion(h: seq<Service>) returns (p: nat)
    requires h != [] && h[|h|-1].ip != 0
    ensures p < |Log(h)| && Log(h)[p] == h[|h|-1].ip && p + MAX_RATE_LIMIT_ENTRIES >= |Log(h)|
  {
    var l, ip := Log(h[..|h|-1]), h[|h|-1].ip;
    if ip in Recent(l) {
      var j :| 0 <= j < |Recent(l)| && Recent(l)[j] == ip;
      p := Max(0, |l| - MAX_RATE_LIMIT_ENTRIES) + j;
    } else {
      p := |l|;
    }
  }

  /** The guarantee of the limiter over every run and every interleaving of checks and updates:
      if a check lets a client pass, then every earlier service of that client lies at least the
      interval back, unless 1024 further insertions followed the client's own. */
  lemma PassedOnlyAfterInterval(h: seq<Service>, i: nat, now: int, interval: u8, p: nat)
    requires i < |h| && h[i].ip != 0 && Monotone(h)
    requires !Limited(TableAfter(h), h[i].ip, now, interval)
    requires p < |Log(h[..i+1])| && Log(h[..i+1])[p] == h[i].ip
    ensures now - h[i].at >= interval || |Log(h)| - (p + 1) >= 1024
  {
    LimitedByLog(h, h[i].ip, now, interval);
    LastServedIsLate(h, i);
    LogExtends(h, i + 1);
    if |Log(h)| - (p + 1) < MAX_RATE_LIMIT_ENTRIES {
      assert Recent(Log(h))[p - Max(0, |Log(h)| - MAX_RATE_LIMIT_ENTRIES)] == h[i].ip;
    }
  }

  /** One request that reached the limiter: when it was checked, and when, its response having been
      delivered, the service was recorded. */
  datatype Attempt = Attempt(ip: Ip, checkedAt: int, servedAt: int, delivered: bool)

  /** The services recorded for a sequence of requests: those that passed the check and were
      delivered. */
  function Granted(attempts: seq<Attempt>, interval: u8): seq<Service> {
    if attempts == [] then []
    else
      var h, a := Granted(attempts[..|attempts|-1], interval), attempts[|attempts|-1];
      if Limited(TableAfter(h), a.ip, a.checkedAt, interval) || !a.delivered then h
      else h + [Service(a.ip, a.servedAt)]
  }

  /** The clock does not go back, within a request or from one to the next. */
  ghost predicate InOrder(attempts: seq<Attempt>) {
    && (forall i | 0 <= i < |attempts| :: attempts[i].checkedAt <= attempts[i].servedAt)
    && (forall i, j | 0 <= i < j < |attempts| :: attempts[i].servedAt <= attempts[j].checkedAt)
  }

  ghost predicate NoneAfter(h: seq<Service>, t: int) {
    forall i | 0 <= i < |h| :: h[i].at <= t
  }

  lemma {:induction false} GrantedMonotone(attempts: seq<Attempt>, interval: u8, t: int)
    requires InOrder(attempts) && forall i | 0 <= i < |attempts| :: attempts[i].servedAt <= t
    ensures Monotone(Granted(attempts, interval)) && NoneAfter(Granted(attempts, interval), t)
  {
    hide Limited;
    if attempts != [] {
      var rest, last := attempts[..|attempts|-1], attempts[|attempts|-1];
      GrantedMonotone(rest, interval, last.checkedAt);
    }
  }

  /** Two services recorded for one client are at least the interval apart, unless 1024 insertions
      came between the client's own insertion and the second service. */
  lemma {:induction false} GrantsAreApart(attempts: seq<Attempt>, interval: u8, i: nat, j: nat, p: nat)
    requires InOrder(attempts)
    requires var g := Granted(attempts, interval); i < j < |g| && g[i].ip == g[j].ip != 0
    requires var g := Granted(attempts, interval); p < |Log(g[..i+1])| && Log(g[..i+1])[p] == g[i].ip
    ensures var g := Granted(attempts, interval);
      g[j].at - g[i].at >= interval || |Log(g[..j])| - (p + 1) >= 1024
  {
    hide Log;
    var n := |attempts| - 1;
    var g, h := Granted(attempts, interval), Granted(attempts[..n], interval);
    if j < |h| {
      assert g[..i+1] == h[..i+1] && g[..j] == h[..j];
      GrantsAreApart(attempts[..n], interval, i, j, p);
    } else {
      assert g == h + [Service(attempts[n].ip, attempts[n].servedAt)] && g[..j] == h && h[..i+1] == g[..i+1];
      GrantedMonotone(attempts[..n], interval, attempts[n].checkedAt);
      PassedOnlyAfterInterval(h, i, attempts[n].checkedAt, interval, p);
    }
  }
}
