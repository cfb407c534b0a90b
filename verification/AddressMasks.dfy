/** Bit arithmetic of network masks: which addresses a mask selects. */
module MaskBits {

  type Ip = bv32

  predicate IpInNetwork(ip: Ip, net: Ip, mask: Ip) {
    ip & mask == net & mask
  }

  /** The mask that leaves `k` low bits free. */
  function Ones(k: bv6): Ip
    requires k < 32
  {
    0xFFFF_FFFF << k
  }

  /** The bits from bit `k` up. */
  function High(x: Ip, k: bv6): Ip
    requires k < 32
  {
    x >> k
  }

  /** Agreement on all bits from bit `k` up. */
  predicate Shared(ip: Ip, net: Ip, k: bv6)
    requires k < 32
  {
    High(ip, k) == High(net, k)
  }

  /** Agreement is equality of what is left when the low bits are shifted out. */
  lemma SharedMeans(ip: Ip, net: Ip, k: bv6)
    requires k < 32
    ensures Shared(ip, net, k) <==> ip >> k == net >> k
  {
  }

  lemma ZeroMask(ip: Ip, net: Ip)
    ensures IpInNetwork(ip, net, 0)
  {
  }

  function And(x: Ip, m: Ip): Ip {
    x & m
  }

  function Half(x: Ip): Ip {
    x >> 1
  }

  function Double(x: Ip): Ip {
    x << 1
  }

  function Masked(x: Ip, k: bv6): Ip
    requires k < 32
  {
    And(x, Ones(k))
  }

  lemma NoFreeBits(x: Ip)
    ensures High(x, 0) == x && Masked(x, 0) == x
  {
  }

  lemma HighOfHalf(x: Ip, k: bv6)
    requires 0 < k < 32
    ensures High(x, k) == High(Half(x), k - 1)
  {
  }

  lemma OnesDoubled(k: bv6)
    requires 0 < k < 32
    ensures Ones(k) == Double(Ones(k - 1))
  {
  }

  lemma AndDoubled(x: Ip, m: Ip)
    ensures Half(And(x, Double(m))) == And(Half(x), m)
    ensures And(x, Double(m)) == Double(And(Half(x), m))
  {
  }

  lemma MaskedOfHalf(x: Ip, k: bv6)
    requires 0 < k < 32
    ensures Half(Masked(x, k)) == Masked(Half(x), k - 1)
    ensures Masked(x, k) == Double(Masked(Half(x), k - 1))
  {
    hide And, Half, Double, Ones;
    OnesDoubled(k);
    AndDoubled(x, Ones(k - 1));
  }

  /** A mask keeps the bits from bit `k` up. */
  lemma {:induction false} MaskKeepsHigh(x: Ip, k: bv6)
    requires k < 32
    ensures High(Masked(x, k), k) == High(x, k)
    decreases k
  {
    hide High, Masked, Half, Double;
    if k == 0 {
      NoFreeBits(x);
    } else {
      MaskedOfHalf(x, k);
      HighOfHalf(Masked(x, k), k);
      HighOfHalf(x, k);
      MaskKeepsHigh(Half(x), k - 1);
    }
  }

  /** What a mask keeps is determined by the bits from bit `k` up. */
  lemma {:induction false} HighGivesMasked(x: Ip, y: Ip, k: bv6)
    requires k < 32 && High(x, k) == High(y, k)
    ensures Masked(x, k) == Masked(y, k)
    decreases k
  {
    hide High, Masked, Half, Double;
    if k == 0 {
      NoFreeBits(x);
      NoFreeBits(y);
    } else {
      MaskedOfHalf(x, k);
      MaskedOfHalf(y, k);
      HighOfHalf(x, k);
      HighOfHalf(y, k);
      HighGivesMasked(Half(x), Half(y), k - 1);
    }
  }

  /** A mask selects the addresses that share the bits it leaves. */
  lemma MaskedIffShared(ip: Ip, net: Ip, k: bv6)
    requires k < 32
    ensures IpInNetwork(ip, net, Ones(k)) <==> Shared(ip, net, k)
  {
    hide High, Ones;
    if Masked(ip, k) == Masked(net, k) {
      MaskKeepsHigh(ip, k);
      MaskKeepsHigh(net, k);
    } else if High(ip, k) == High(net, k) {
      HighGivesMasked(ip, net, k);
    }
  }
}

module AddressMasks {
  import opened MaskBits

  /** How many low bits a prefix leaves free. */
  function HostBits(prefix: nat): (k: bv6)
    requires 0 < prefix <= 32
    ensures k < 32
  {
    (32 - prefix) as bv6
  }

  /** The mask of a prefix length. */
  function MaskOf(prefix: nat): Ip
    requires prefix <= 32
  {
    if prefix == 0 then 0 else Ones(HostBits(prefix))
  }

  /** A mask selects exactly the addresses that share the prefix bits of the network; the empty
      prefix selects all. */
  lemma MaskSelectsPrefix(ip: Ip, net: Ip, prefix: nat)
    requires prefix <= 32
    ensures IpInNetwork(ip, net, MaskOf(prefix)) <==>
      prefix == 0 || Shared(ip, net, (32 - prefix) as bv6)
  {
    hide High, Ones, IpInNetwork, Shared;
    if prefix == 0 {
      ZeroMask(ip, net);
    } else {
      MaskedIffShared(ip, net, HostBits(prefix));
    }
  }
}
