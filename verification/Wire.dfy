/** The 48-byte NTP header: big-endian words, the packed first byte, parsing into a packet record
    and writing a request (section 7.3 of RFC 5905). */
module Wire {
  import opened Words

  const HEADER_SIZE := 48
  const NTP_VN_4 := 4
  const MODE_SYMMETRIC_ACTIVE := 1
  const MODE_SYMMETRIC_PASSIVE := 2
  const MODE_CLIENT := 3
  const MODE_SERVER := 4
  const MODE_BROADCAST := 5
  const MODE_CONTROL := 6
  const MODE_PRIVATE := 7

  datatype Timestamp = Timestamp(sec: u32, frac: u32)

  datatype Header = Header(
    liVnMode: u8, stratum: u8, poll: i8, precision: i8,
    rootDelay: u32, rootDisp: u32, refId: u32,
    refTs: Timestamp, origTs: Timestamp, recvTs: Timestamp, xmitTs: Timestamp)
  {
    function Li(): int { liVnMode / 0x40 }
    function Vn(): int { liVnMode / 8 % 8 }
    function Mode(): int { liVnMode % 8 }
  }

  // ---------- the packed byte ----------

  /** The first byte of a header from its three fields. */
  function PackLiVnMode(li: int, vn: int, mode: int): u8
    requires 0 <= vn < 8 && 0 <= mode < 8
  {
    li % 4 * 0x40 + vn * 8 + mode
  }

  /** Quotients and remainders of the packed byte are the masks and shifts of the source. */
  lemma LiMaskIsQuotient(b: bv8)
    ensures ((b & 0xC0) >> 6) as int == (b as int) / 0x40
  {
  }

  lemma VnMaskIsDigit(b: bv8)
    ensures ((b & 0x38) >> 3) as int == (b as int) / 8 % 8
  {
  }

  lemma ModeMaskIsRemainder(b: bv8)
    ensures (b & 0x07) as int == (b as int) % 8
  {
  }

  lemma ShiftsArePack(li: bv8, mode: bv8)
    requires mode < 8
    ensures (((li & 3) << 6) | (4 << 3) | mode) as int == PackLiVnMode(li as int, 4, mode as int)
  {
  }

  lemma PackUnpack(li: int, vn: int, mode: int, h: Header)
    requires 0 <= li < 4 && 0 <= vn < 8 && 0 <= mode < 8
    requires h.liVnMode == PackLiVnMode(li, vn, mode)
    ensures h.Li() == li && h.Vn() == vn && h.Mode() == mode
  {
  }

  // ---------- words and bytes ----------

  function Word(b0: int, b1: int, b2: int, b3: int): int {
    b0 * 0x100_0000 + b1 * 0x1_0000 + b2 * 0x100 + b3
  }

  function ReadU32be(s: seq<u8>, at: nat): u32
    requires at + 4 <= |s|
  {
    Word(s[at], s[at+1], s[at+2], s[at+3])
  }

  function U32Bytes(v: u32): (r: seq<u8>)
    ensures |r| == 4
  {
    [v / 0x100_0000, v / 0x1_0000 % 0x100, v / 0x100 % 0x100, v % 0x100]
  }

  lemma WordOfDigits(v: u32)
    ensures Word(v / 0x100_0000, v / 0x1_0000 % 0x100, v / 0x100 % 0x100, v % 0x100) == v
  {
    assert v / 0x1_0000 == v / 0x100 / 0x100 && v / 0x100_0000 == v / 0x1_0000 / 0x100;
  }

  lemma DigitsOfWord(b0: u8, b1: u8, b2: u8, b3: u8)
    ensures var v := Word(b0, b1, b2, b3);
      v / 0x100_0000 == b0 && v / 0x1_0000 % 0x100 == b1 && v / 0x100 % 0x100 == b2 && v % 0x100 == b3
  {
    var v := Word(b0, b1, b2, b3);
    QuotientUnique(v, Word(0, b0, b1, b2), b3);
    QuotientUnique(Word(0, b0, b1, b2), Word(0, 0, b0, b1), b2);
    QuotientUnique(Word(0, 0, b0, b1), b0, b1);
    assert v / 0x1_0000 == v / 0x100 / 0x100 && v / 0x100_0000 == v / 0x100 / 0x100 / 0x100;
  }

  lemma QuotientUnique(v: int, q: int, r: u8)
    requires v == q * 0x100 + r
    ensures v / 0x100 == q && v % 0x100 == r
  {
  }

  /** A word that was written at a place is read back there. */
  lemma ReadWritten(s: seq<u8>, at: nat, v: u32)
    requires at + 4 <= |s| && s[at..at+4] == U32Bytes(v)
    ensures ReadU32be(s, at) == v
  {
    var w := s[at..at+4];
    assert w[0] == s[at] && w[1] == s[at+1] && w[2] == s[at+2] && w[3] == s[at+3];
    WordOfDigits(v);
  }

  /** The bytes of a word that was read are the bytes it was read from. */
  lemma WrittenRead(s: seq<u8>, at: nat)
    requires at + 4 <= |s|
    ensures U32Bytes(ReadU32be(s, at)) == s[at..at+4]
  {
    DigitsOfWord(s[at], s[at+1], s[at+2], s[at+3]);
  }

  /** Stores a word big-endian, touching exactly its four bytes. */
  method WriteU32be(p: array<u8>, at: nat, v: u32)
    requires at + 4 <= p.Length
    modifies p
    ensures p[..] == old(p[..])[..at] + U32Bytes(v) + old(p[..])[at+4..]
  {
    p[at] := v / 0x100_0000;
    p[at+1] := v / 0x1_0000 % 0x100;
    p[at+2] := v / 0x100 % 0x100;
    p[at+3] := v % 0x100;
  }

  function ReadTimestamp(s: seq<u8>, at: nat): Timestamp
    requires at + 8 <= |s|
  {
    Timestamp(ReadU32be(s, at), ReadU32be(s, at + 4))
  }

  function TimestampBytes(t: Timestamp): (r: seq<u8>)
    ensures |r| == 8
  {
    U32Bytes(t.sec) + U32Bytes(t.frac)
  }

  // ---------- the header as bytes ----------

  function Decode(s: seq<u8>): Header
    requires |s| >= HEADER_SIZE
  {
    Header(s[0], s[1], SignedByte(s[2]), SignedByte(s[3]),
           ReadU32be(s, 4), ReadU32be(s, 8), ReadU32be(s, 12),
           ReadTimestamp(s, 16), ReadTimestamp(s, 24), ReadTimestamp(s, 32), ReadTimestamp(s, 40))
  }

  function FrontBytes(h: Header): (r: seq<u8>)
    ensures |r| == 16
  {
    [h.liVnMode, h.stratum, UnsignedByte(h.poll), UnsignedByte(h.precision)]
    + U32Bytes(h.rootDelay) + U32Bytes(h.rootDisp) + U32Bytes(h.refId)
  }

  function Encode(h: Header): (r: seq<u8>)
    ensures |r| == HEADER_SIZE
  {
    FrontBytes(h) + (TimestampBytes(h.refTs) + TimestampBytes(h.origTs))
    + (TimestampBytes(h.recvTs) + TimestampBytes(h.xmitTs))
  }

  lemma ReadSplit(s: seq<u8>, at: nat, left: seq<u8>, v: u32, right: seq<u8>)
    requires s == left + U32Bytes(v) + right && at == |left|
    ensures ReadU32be(s, at) == v
  {
    assert s[at..at+4] == U32Bytes(v);
    ReadWritten(s, at, v);
  }

  lemma ReadTimestampSplit(s: seq<u8>, at: nat, left: seq<u8>, t: Timestamp, right: seq<u8>)
    requires s == left + TimestampBytes(t) + right && at == |left|
    ensures ReadTimestamp(s, at) == t
  {
    assert s == left + U32Bytes(t.sec) + (U32Bytes(t.frac) + right);
    assert s == (left + U32Bytes(t.sec)) + U32Bytes(t.frac) + right;
    ReadSplit(s, at, left, t.sec, U32Bytes(t.frac) + right);
    ReadSplit(s, at + 4, left + U32Bytes(t.sec), t.frac, right);
  }

  /** Decoding undoes encoding, whatever follows the header. */
  lemma DecodeEncode(h: Header, rest: seq<u8>)
    ensures Decode(Encode(h) + rest) == h
  {
    var s := Encode(h) + rest;
    DecodeFront(h, s, s[16..]);
    DecodeBack(h, s, rest);
  }

  lemma DecodeEncodeAlone(h: Header)
    ensures Decode(Encode(h)) == h
  {
    DecodeEncode(h, []);
    assert Encode(h) + [] == Encode(h);
  }

  lemma DecodeFront(h: Header, s: seq<u8>, rest: seq<u8>)
    requires s == FrontBytes(h) + rest
    ensures |s| >= 16
    ensures s[0] == h.liVnMode && s[1] == h.stratum
    ensures SignedByte(s[2]) == h.poll && SignedByte(s[3]) == h.precision
    ensures ReadU32be(s, 4) == h.rootDelay && ReadU32be(s, 8) == h.rootDisp && ReadU32be(s, 12) == h.refId
  {
    var first := [h.liVnMode, h.stratum, UnsignedByte(h.poll), UnsignedByte(h.precision)];
    var a, b, c := U32Bytes(h.rootDelay), U32Bytes(h.rootDisp), U32Bytes(h.refId);
    assert s == first + a + (b + c + rest);
    ReadSplit(s, 4, first, h.rootDelay, b + c + rest);
    assert s == (first + a) + b + (c + rest);
    ReadSplit(s, 8, first + a, h.rootDisp, c + rest);
    assert s == (first + a + b) + c + rest;
    ReadSplit(s, 12, first + a + b, h.refId, rest);
  }

  lemma ReadTwoTimestamps(s: seq<u8>, at: nat, left: seq<u8>, t: Timestamp, t': Timestamp, right: seq<u8>)
    requires s == left + (TimestampBytes(t) + TimestampBytes(t')) + right && at == |left|
    ensures ReadTimestamp(s, at) == t && ReadTimestamp(s, at + 8) == t'
  {
    assert s == left + TimestampBytes(t) + (TimestampBytes(t') + right);
    ReadTimestampSplit(s, at, left, t, TimestampBytes(t') + right);
    assert s == (left + TimestampBytes(t)) + TimestampBytes(t') + right;
    ReadTimestampSplit(s, at + 8, left + TimestampBytes(t), t', right);
  }

  lemma DecodeBack(h: Header, s: seq<u8>, rest: seq<u8>)
    requires s == Encode(h) + rest
    ensures ReadTimestamp(s, 16) == h.refTs && ReadTimestamp(s, 24) == h.origTs
    ensures ReadTimestamp(s, 32) == h.recvTs && ReadTimestamp(s, 40) == h.xmitTs
  {
    var a := TimestampBytes(h.refTs) + TimestampBytes(h.origTs);
    var b := TimestampBytes(h.recvTs) + TimestampBytes(h.xmitTs);
    assert s == FrontBytes(h) + a + (b + rest);
    ReadTwoTimestamps(s, 16, FrontBytes(h), h.refTs, h.origTs, b + rest);
    assert s == (FrontBytes(h) + a) + b + rest;
    ReadTwoTimestamps(s, 32, FrontBytes(h) + a, h.recvTs, h.xmitTs, rest);
  }

  lemma Join(s: seq<u8>, i: nat, j: nat, k: nat)
    requires i <= j <= k <= |s|
    ensures s[i..j] + s[j..k] == s[i..k]
  {
  }

  lemma WrittenReadTimestamp(s: seq<u8>, at: nat)
    requires at + 8 <= |s|
    ensures TimestampBytes(ReadTimestamp(s, at)) == s[at..at+8]
  {
    WrittenRead(s, at);
    WrittenRead(s, at + 4);
    Join(s, at, at + 4, at + 8);
  }

  lemma SignRoundTrip(b: u8)
    ensures UnsignedByte(SignedByte(b)) == b
  {
  }

  lemma WrittenReadFront(s: seq<u8>)
    requires |s| >= HEADER_SIZE
    ensures FrontBytes(Decode(s)) == s[..16]
  {
    WrittenRead(s, 4);
    WrittenRead(s, 8);
    WrittenRead(s, 12);
    Join(s, 0, 4, 8);
    Join(s, 0, 8, 12);
    Join(s, 0, 12, 16);
    var h := Decode(s);
    assert [h.liVnMode, h.stratum, UnsignedByte(h.poll), UnsignedByte(h.precision)] == s[0..4] by {
      SignRoundTrip(s[2]);
      SignRoundTrip(s[3]);
    }
  }

  /** Encoding a decoded header gives back its 48 bytes: the layout loses and invents nothing. */
  lemma EncodeDecode(s: seq<u8>)
    requires |s| >= HEADER_SIZE
    ensures Encode(Decode(s)) == s[..HEADER_SIZE]
  {
    WrittenReadFront(s);
    WrittenReadTimestamp(s, 16);
    WrittenReadTimestamp(s, 24);
    WrittenReadTimestamp(s, 32);
    WrittenReadTimestamp(s, 40);
    Join(s, 16, 24, 32);
    Join(s, 32, 40, 48);
    Join(s, 0, 16, 32);
    Join(s, 0, 32, 48);
  }

  // ---------- the layout, byte by byte ----------

  predicate WordAt(s: seq<u8>, at: nat, v: u32)
    requires at + 4 <= |s|
  {
    v == 16777216 * (s[at] as int) + 65536 * (s[at+1] as int) + 256 * (s[at+2] as int) + s[at+3]
  }

  predicate TimestampAt(s: seq<u8>, at: nat, t: Timestamp)
    requires at + 8 <= |s|
  {
    WordAt(s, at, t.sec) && WordAt(s, at + 4, t.frac)
  }

  /** Which bytes make up which field (figure 8 of RFC 5905): one byte each for indicator, version
      and mode together, stratum, poll and precision, then words, most significant byte first. */
  predicate Layout(s: seq<u8>, h: Header)
    requires |s| >= 48
  {
    && s[0] == 64 * h.Li() + 8 * h.Vn() + h.Mode() && h.Li() <= 3 && h.Vn() <= 7 && h.Mode() <= 7
    && s[1] == h.stratum
    && s[2] == (if h.poll >= 0 then h.poll else h.poll + 256)
    && s[3] == (if h.precision >= 0 then h.precision else h.precision + 256)
    && WordAt(s, 4, h.rootDelay) && WordAt(s, 8, h.rootDisp) && WordAt(s, 12, h.refId)
    && TimestampAt(s, 16, h.refTs) && TimestampAt(s, 24, h.origTs)
    && TimestampAt(s, 32, h.recvTs) && TimestampAt(s, 40, h.xmitTs)
  }

  lemma DecodeLayout(s: seq<u8>)
    requires |s| >= 48
    ensures Layout(s, Decode(s))
  {
  }

  lemma EncodeLayout(h: Header)
    ensures |Encode(h)| == 48 && Layout(Encode(h), h)
  {
    hide Decode, Encode;
    DecodeLayout(Encode(h));
    DecodeEncodeAlone(h);
  }
}
