/** The access-control list: network entries with masks, first match wins, and a default policy.
    Addresses and masks are 32-bit vectors in host byte order. */
module AccessControl {
  import opened Words
  import opened Wire
  import opened MaskBits
  import opened AddressMasks

  const MAX_ACL_ENTRIES := 256
  const ACL_FLAG_NOQUERY: bv8 := 1
  const ACL_FLAG_NOSERVE: bv8 := 2
  const ENOENT := 2
  const ENOMEM := 12
  const EINVAL := 22

  datatype AclEntry = AclEntry(ip: Ip, mask: Ip, flags: bv8)

  datatype Policy = Policy(enableSymmetric: bool, enableBroadcast: bool, defaultFlags: bv8)

  /** A network in address and prefix form; the address zero and long prefixes are refused. */
  function ParseNetwork(ip: Ip, prefix: nat): Option<(Ip, Ip)> {
    if prefix > 32 || ip == 0 then None else Some((ip, MaskOf(prefix)))
  }

  predicate Matches(e: AclEntry, ip: Ip) {
    IpInNetwork(ip, e.ip, e.mask)
  }

  /** Index of the first entry, from `from` on, that matches the client; the length when none
      does. */
  function FirstMatch(acl: seq<AclEntry>, ip: Ip, from: nat): (i: nat)
    requires from <= |acl|
    ensures from <= i <= |acl|
    ensures i < |acl| ==> Matches(acl[i], ip)
    ensures forall j | from <= j < i :: !Matches(acl[j], ip)
    decreases |acl| - from
  {
    if from == |acl| || Matches(acl[from], ip) then from else FirstMatch(acl, ip, from + 1)
  }

  /** Index of the first entry for exactly this network; the length when there is none. */
  function FirstEqual(acl: seq<AclEntry>, net: Ip, mask: Ip, from: nat): (i: nat)
    requires from <= |acl|
    ensures from <= i <= |acl|
    ensures i < |acl| ==> acl[i].ip == net && acl[i].mask == mask
    ensures forall j | from <= j < i :: !(acl[j].ip == net && acl[j].mask == mask)
    decreases |acl| - from
  {
    if from == |acl| || (acl[from].ip == net && acl[from].mask == mask) then from
    else FirstEqual(acl, net, mask, from + 1)
  }

  /** The flags that apply to a client. */
  function FlagsFor(acl: seq<AclEntry>, defaultFlags: bv8, ip: Ip): bv8 {
    var i := FirstMatch(acl, ip, 0);
    if i < |acl| then acl[i].flags else defaultFlags
  }

  /** Whether the packet mode is enabled, whoever the client is. */
  predicate ModeEnabled(policy: Policy, mode: int) {
    && (mode == MODE_SYMMETRIC_ACTIVE || mode == MODE_SYMMETRIC_PASSIVE ==> policy.enableSymmetric)
    && (mode == MODE_BROADCAST ==> policy.enableBroadcast)
    && 1 <= mode <= 7
  }

  /** The flag that forbids a packet mode. */
  function ForbiddingFlag(mode: int): bv8 {
    if mode == MODE_CONTROL || mode == MODE_PRIVATE then ACL_FLAG_NOQUERY else ACL_FLAG_NOSERVE
  }

  class AccessControlList {
    const entries: array<AclEntry>
    var count: nat
    var policy: Policy

    ghost predicate Valid()
      reads this, entries
    {
      count <= entries.Length == MAX_ACL_ENTRIES
    }

    ghost function Acl(): seq<AclEntry>
      requires Valid()
      reads this, entries
    {
      entries[..count]
    }

    constructor (policy: Policy)
      ensures Valid() && fresh(entries) && Acl() == [] && this.policy == policy
    {
      entries := new AclEntry[MAX_ACL_ENTRIES](_ => AclEntry(0, 0, 0));
      count := 0;
      this.policy := policy;
    }

    method AddEntry(ip: Ip, prefix: nat, flags: bv8) returns (rc: int)
      requires Valid()
      modifies this`count, entries
      ensures Valid()
      ensures rc == AddResult(|old(Acl())|, ip, prefix)
      ensures rc == if |old(Acl())| >= 256 then -12 else if ip == 0 || prefix > 32 then -22 else 0
      ensures rc == 0 ==> prefix <= 32 && Acl() == old(Acl()) + [AclEntry(ip, MaskOf(prefix), flags)]
      ensures rc != 0 ==> Acl() == old(Acl())
    {
      if count >= MAX_ACL_ENTRIES {
        return -ENOMEM;
      }
      var network := ParseNetwork(ip, prefix);
      if network == None {
        return -EINVAL;
      }
      ghost var before := Acl();
      entries[count] := AclEntry(network.value.0, network.value.1, flags);
      count := count + 1;
      assert Acl() == before + [entries[count-1]];
      return 0;
    }

    method RemoveEntry(ip: Ip, prefix: nat) returns (rc: int)
      requires Valid()
      modifies this`count, entries
      ensures Valid()
      ensures prefix > 32 || ip == 0 ==> rc == -22 && Acl() == old(Acl())
      ensures prefix <= 32 && ip != 0 ==>
        var i := FirstEqual(old(Acl()), ip, MaskOf(prefix), 0);
        if i < |old(Acl())| then rc == 0 && Acl() == Without(old(Acl()), i)
        else rc == -2 && Acl() == old(Acl())
    {
      var network := ParseNetwork(ip, prefix);
      if network == None {
        return -EINVAL;
      }
      var net, mask := network.value.0, network.value.1;
      ghost var acl := Acl();
      for i := 0 to count
        invariant i <= FirstEqual(acl, net, mask, 0) && Acl() == acl && count == |acl| && Valid()
      {
        assert entries[i] == acl[i];
        if entries[i].ip == net && entries[i].mask == mask {
          RemoveIndex(i);
          return 0;
        }
      }
      return -ENOENT;
    }

    /** The shift that closes the gap of a removed entry. */
    method RemoveIndex(i: nat)
      requires Valid() && i < count
      modifies this`count, entries
      ensures Valid() && Acl() == Without(old(Acl()), i)
    {
      forall j | i <= j < count - 1 {
        entries[j] := entries[j + 1];
      }
      count := count - 1;
    }

    /** The linear scan for the first matching entry. */
    method Scan(ip: Ip) returns (flags: bv8)
      requires Valid()
      ensures flags == FlagsFor(Acl(), policy.defaultFlags, ip)
    {
      for i := 0 to count
        invariant i <= FirstMatch(Acl(), ip, 0)
      {
        assert entries[i] == Acl()[i];
        if IpInNetwork(ip, entries[i].ip, entries[i].mask) {
          return entries[i].flags;
        }
      }
      return policy.defaultFlags;
    }

    method GetClientFlags(ip: Ip) returns (flags: bv8)
      requires Valid()
      ensures flags == if ip == 0 then policy.defaultFlags else FlagsFor(Acl(), policy.defaultFlags, ip)
    {
      if ip == 0 {
        return policy.defaultFlags;
      }
      flags := Scan(ip);
    }

    /** A request passes exactly when its mode is enabled and the flags that apply to the client
        do not forbid it; the address zero never passes. */
    method CheckClient(ip: Ip, mode: int) returns (allowed: bool)
      requires Valid()
      ensures allowed <==> Allowed(policy, Acl(), ip, mode)
    {
      if ip == 0 {
        return false;
      }
      if mode == MODE_SYMMETRIC_ACTIVE || mode == MODE_SYMMETRIC_PASSIVE {
        if !policy.enableSymmetric {
          return false;
        }
      }
      if mode == MODE_BROADCAST {
        if !policy.enableBroadcast {
          return false;
        }
      }
      var flags := Scan(ip);
      if mode == MODE_CONTROL || mode == MODE_PRIVATE {
        return flags & ACL_FLAG_NOQUERY == 0;
      } else if mode == MODE_CLIENT || mode == MODE_SERVER
                || mode == MODE_SYMMETRIC_ACTIVE || mode == MODE_SYMMETRIC_PASSIVE {
        return flags & ACL_FLAG_NOSERVE == 0;
      } else if mode == MODE_BROADCAST {
        return flags & ACL_FLAG_NOSERVE == 0;
      } else {
        return false;
      }
    }
  }

  predicate Allowed(policy: Policy, acl: seq<AclEntry>, ip: Ip, mode: int) {
    ip != 0 && ModeEnabled(policy, mode) && FlagsFor(acl, policy.defaultFlags, ip) & ForbiddingFlag(mode) == 0
  }

  /** Return code of an add to a list of `n` entries. */
  function AddResult(n: nat, ip: Ip, prefix: nat): int {
    if n >= 256 then -12 else if ip == 0 || prefix > 32 then -22 else 0
  }

  /** No entry can be made for the address zero, whatever the prefix: it stands for an address
      that could not be parsed. */
  lemma ZeroNetworkRefused(n: nat, prefix: nat)
    ensures AddResult(n, 0, prefix) in {-12, -22}
  {
  }

  /** What the flags of the first match forbid, mode by mode.  Symmetric modes and broadcast need their
      switch, mode 0 and what is beyond 7 never pass; then bit 0 forbids modes 6 and 7, bit 1 forbids
      modes 1 to 5, and no other bit matters. */
  lemma AllowedByMode(policy: Policy, acl: seq<AclEntry>, ip: Ip, mode: int)
    ensures var flags := FlagsFor(acl, policy.defaultFlags, ip);
      && (mode == 1 || mode == 2 ==>
            (Allowed(policy, acl, ip, mode) <==> ip != 0 && policy.enableSymmetric && flags & 2 == 0))
      && (mode == 3 || mode == 4 ==> (Allowed(policy, acl, ip, mode) <==> ip != 0 && flags & 2 == 0))
      && (mode == 5 ==> (Allowed(policy, acl, ip, mode) <==> ip != 0 && policy.enableBroadcast && flags & 2 == 0))
      && (mode == 6 || mode == 7 ==> (Allowed(policy, acl, ip, mode) <==> ip != 0 && flags & 1 == 0))
      && (mode < 1 || mode > 7 ==> !Allowed(policy, acl, ip, mode))
  {
  }

  /** An entry with bit 1 alone leaves its clients modes 6 and 7, one with bit 0 alone modes 3 and 4
      and, where switched on, 1, 2 and 5. */
  lemma SingleFlags(policy: Policy, acl: seq<AclEntry>, ip: Ip, mode: int)
    requires ip != 0 && 1 <= mode <= 7
    ensures FlagsFor(acl, policy.defaultFlags, ip) == 2 ==> (Allowed(policy, acl, ip, mode) <==> mode >= 6)
    ensures FlagsFor(acl, policy.defaultFlags, ip) == 1 && policy.enableSymmetric && policy.enableBroadcast ==>
      (Allowed(policy, acl, ip, mode) <==> mode <= 5)
  {
    AllowedByMode(policy, acl, ip, mode);
  }

  /** Whose flags apply: those of the first entry whose masked address is the client's, else the
      default. */
  lemma FlagsOutright(acl: seq<AclEntry>, defaultFlags: bv8, ip: Ip, i: nat)
    requires i <= |acl| && forall j | 0 <= j < i :: ip & acl[j].mask != acl[j].ip & acl[j].mask
    ensures i == |acl| ==> FlagsFor(acl, defaultFlags, ip) == defaultFlags
    ensures i < |acl| && ip & acl[i].mask == acl[i].ip & acl[i].mask ==> FlagsFor(acl, defaultFlags, ip) == acl[i].flags
  {
    assert forall j | 0 <= j < i :: !Matches(acl[j], ip);
    if i == |acl| || Matches(acl[i], ip) {
      FirstMatchUnique(acl, ip, i);
    }
  }

  // ---------- edits and verdicts ----------

  /** The scan position is determined by what lies before it. */
  lemma FirstMatchUnique(acl: seq<AclEntry>, ip: Ip, i: nat)
    requires i <= |acl|
    requires i < |acl| ==> Matches(acl[i], ip)
    requires forall j | 0 <= j < i :: !Matches(acl[j], ip)
    ensures FirstMatch(acl, ip, 0) == i
  {
  }

  lemma FirstMatchFlags(acl: seq<AclEntry>, defaultFlags: bv8, ip: Ip, i: nat)
    requires i <= |acl|
    requires i < |acl| ==> Matches(acl[i], ip)
    requires forall j | 0 <= j < i :: !Matches(acl[j], ip)
    ensures FlagsFor(acl, defaultFlags, ip) == if i < |acl| then acl[i].flags else defaultFlags
  {
    FirstMatchUnique(acl, ip, i);
  }

  lemma FirstEqualUnique(acl: seq<AclEntry>, net: Ip, mask: Ip, i: nat)
    requires i <= |acl|
    requires i < |acl| ==> acl[i].ip == net && acl[i].mask == mask
    requires forall j | 0 <= j < i :: !(acl[j].ip == net && acl[j].mask == mask)
    ensures FirstEqual(acl, net, mask, 0) == i
  {
  }

  /** Adding an entry affects only clients that no earlier entry matches, and of those exactly the
      clients in the new network. */
  lemma AddAffectsUnmatchedOnly(acl: seq<AclEntry>, e: AclEntry, defaultFlags: bv8, ip: Ip)
    ensures FlagsFor(acl + [e], defaultFlags, ip) ==
      if FirstMatch(acl, ip, 0) == |acl| && Matches(e, ip) then e.flags else FlagsFor(acl, defaultFlags, ip)
  {
    var i := FirstMatch(acl, ip, 0);
    var after := acl + [e];
    assert forall j | 0 <= j < |acl| :: after[j] == acl[j];
    if i < |acl| || Matches(e, ip) {
      FirstMatchUnique(after, ip, i);
    } else {
      FirstMatchUnique(after, ip, i + 1);
    }
  }

  /** The list without entry `r`. */
  function Without(acl: seq<AclEntry>, r: nat): (after: seq<AclEntry>)
    requires r < |acl|
    ensures |after| == |acl| - 1
    ensures forall j | 0 <= j < |after| :: after[j] == if j < r then acl[j] else acl[j+1]
  {
    acl[..r] + acl[r+1..]
  }

  /** Removing an entry affects only clients whose first match it was. */
  lemma RemoveSparesOthers(acl: seq<AclEntry>, r: nat, defaultFlags: bv8, ip: Ip)
    requires r < |acl| && FirstMatch(acl, ip, 0) != r
    ensures FlagsFor(Without(acl, r), defaultFlags, ip) == FlagsFor(acl, defaultFlags, ip)
  {
    hide Matches, FlagsFor;
    var i := FirstMatch(acl, ip, 0);
    var after := Without(acl, r);
    FirstMatchFlags(acl, defaultFlags, ip, i);
    if i < r {
      FirstMatchFlags(after, defaultFlags, ip, i);
    } else {
      forall j | 0 <= j < i - 1 ensures !Matches(after[j], ip) {
        assert after[j] == acl[if j < r then j else j + 1];
      }
      FirstMatchFlags(after, defaultFlags, ip, i - 1);
    }
  }

  /** The clients of a removed entry fall to the entries behind it. */
  lemma RemoveExposesRest(acl: seq<AclEntry>, r: nat, defaultFlags: bv8, ip: Ip)
    requires r < |acl| && FirstMatch(acl, ip, 0) == r
    ensures FlagsFor(Without(acl, r), defaultFlags, ip) == FlagsFor(acl[r+1..], defaultFlags, ip)
  {
    var rest := acl[r+1..];
    var k := FirstMatch(rest, ip, 0);
    var after := Without(acl, r);
    assert forall j | 0 <= j < |rest| :: after[r+j] == rest[j];
    forall j | 0 <= j < r + k ensures !Matches(after[j], ip) {
      if r <= j {
        assert after[j] == rest[j-r];
      }
    }
    FirstMatchUnique(after, ip, r + k);
  }

  /** Adding a network and removing it again gives back the list exactly when the list held no
      entry for that network, or ends in a run of the very entry that was added. */
  lemma AddThenRemove(acl: seq<AclEntry>, e: AclEntry)
    ensures var i := FirstEqual(acl, e.ip, e.mask, 0);
      && FirstEqual(acl + [e], e.ip, e.mask, 0) == i
      && (Without(acl + [e], i) == acl <==> forall j | i <= j < |acl| :: acl[j] == e)
  {
    var after := acl + [e];
    var i := FirstEqual(acl, e.ip, e.mask, 0);
    assert after[|acl|] == e && forall j | 0 <= j < |acl| :: after[j] == acl[j];
    FirstEqualUnique(after, e.ip, e.mask, i);
    if Without(after, i) == acl {
      forall j | i <= j < |acl| ensures acl[j] == e {
        RunOfLast(after, acl, i, j);
      }
    }
  }

  lemma {:induction false} RunOfLast(after: seq<AclEntry>, acl: seq<AclEntry>, i: nat, j: nat)
    requires i <= j <= |acl| && |after| == |acl| + 1
    requires forall k | 0 <= k < |acl| :: after[k] == acl[k]
    requires Without(after, i) == acl
    ensures after[j] == after[|acl|]
    decreases |acl| - j
  {
    if j < |acl| {
      RunOfLast(after, acl, i, j + 1);
      assert acl[j] == Without(after, i)[j] == after[j+1];
    }
  }
}
