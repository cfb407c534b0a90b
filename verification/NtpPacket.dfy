/** Parsing a received packet into a packet record, recognising Kiss-o'-Death, and building a
    client request. */
module NtpPacket {
  import opened Words
  import opened Wire

  const MAX_STRATUM := 16
  const KOD_STRATUM := 127

  /** The Kiss-o'-Death test of the daemon. */
  predicate IsKod(h: Header) {
    h.stratum == KOD_STRATUM && h.Li() == 3
  }

  /** What parsing demands of a header. */
  predicate WellFormed(h: Header) {
    h.Vn() == NTP_VN_4 && h.Mode() != 0 && h.stratum <= MAX_STRATUM
  }

  const MAC_MIN_SIZE := 68
  const KEY_ID_AT := 64
  const DIGEST_AT := 65
  const DIGEST_SIZE := 20

  /** The key identifier and the digest of a record. */
  datatype Mac = Mac(keyId: u8, digest: seq<u8>)

  /** What uninitialised memory happens to hold: a packet record on the stack, and the buffer
      behind a received packet. */
  datatype Memory = Memory(header: Header, mac: Mac, behind: seq<u8>) {
    predicate Valid() {
      |mac.digest| == DIGEST_SIZE && |behind| >= DIGEST_SIZE
    }
  }

  /** The record's key identifier and digest after parsing: taken from a fixed place when the packet
      has more than 68 bytes; `behind` is what the buffer holds behind the packet. */
  function MacAfter(mac: Mac, buffer: seq<u8>, behind: seq<u8>): (r: Mac)
    requires |behind| >= DIGEST_SIZE
  {
    if |buffer| > MAC_MIN_SIZE
    then Mac(buffer[KEY_ID_AT], (buffer + behind)[DIGEST_AT..DIGEST_AT+DIGEST_SIZE]) else mac
  }

  /** Where key identifier and digest are taken from: bytes 64 and 65 to 84, if there are more than
      68. */
  lemma MacByBytes(mac: Mac, buffer: seq<u8>, behind: seq<u8>)
    requires |behind| >= DIGEST_SIZE
    ensures |buffer| <= 68 ==> MacAfter(mac, buffer, behind) == mac
    ensures |buffer| > 68 ==>
      var r := MacAfter(mac, buffer, behind);
      && r.keyId == buffer[64] && |r.digest| == 20
      && forall i | 0 <= i < 20 && 65 + i < |buffer| :: r.digest[i] == buffer[65+i]
  {
  }

  class Packet {
    var keyId: u8
    var digest: seq<u8>
    var liVnMode: u8
    var stratum: u8
    var poll: i8
    var precision: i8
    var rootDelay: u32
    var rootDisp: u32
    var refId: u32
    var refTs: Timestamp
    var origTs: Timestamp
    var recvTs: Timestamp
    var xmitTs: Timestamp

    /** A record with the given contents; a caller's uninitialised record is any such value. */
    constructor (h: Header, mac: Mac)
      ensures Value() == h && MacValue() == mac
    {
      keyId, digest := mac.keyId, mac.digest;
      liVnMode, stratum, poll, precision := h.liVnMode, h.stratum, h.poll, h.precision;
      rootDelay, rootDisp, refId := h.rootDelay, h.rootDisp, h.refId;
      refTs, origTs, recvTs, xmitTs := h.refTs, h.origTs, h.recvTs, h.xmitTs;
    }

    function Value(): Header
      reads this
    {
      Header(liVnMode, stratum, poll, precision, rootDelay, rootDisp, refId, refTs, origTs, recvTs, xmitTs)
    }

    function MacValue(): Mac
      reads this
    {
      Mac(keyId, digest)
    }

    /** Fills the record from the first 48 bytes, and from the bytes of a code that may follow;
        `behind` is what the buffer holds behind the packet.  The record's former contents are consulted
        by the Kiss-o'-Death test, and the record is filled even when the header is then refused. */
    method Parse(buffer: seq<u8>, behind: seq<u8>) returns (ok: bool)
      requires |behind| >= DIGEST_SIZE
      modifies this
      ensures |buffer| < HEADER_SIZE || IsKod(old(Value())) ==>
        !ok && Value() == old(Value()) && MacValue() == old(MacValue())
      ensures |buffer| >= HEADER_SIZE && !IsKod(old(Value())) ==>
        && Value() == Decode(buffer) && MacValue() == MacAfter(old(MacValue()), buffer, behind)
        && (ok <==> WellFormed(Decode(buffer)))
    {
      if |buffer| < HEADER_SIZE {
        return false;
      }
      if IsKod(Value()) {
        return false;
      }
      Fill(buffer);
      if |buffer| > MAC_MIN_SIZE {
        keyId := buffer[KEY_ID_AT];
        digest := (buffer + behind)[DIGEST_AT..DIGEST_AT+DIGEST_SIZE];
      }
      var vn, mode := Value().Vn(), Value().Mode();
      if vn != NTP_VN_4 {
        return false;
      }
      if mode == 0 {
        return false;
      }
      if stratum > MAX_STRATUM {
        return false;
      }
      return true;
    }

    /** Reads the 48 header bytes field by field. */
    method Fill(data: seq<u8>)
      requires |data| >= HEADER_SIZE
      modifies `liVnMode, `stratum, `poll, `precision, `rootDelay, `rootDisp, `refId
      modifies `refTs, `origTs, `recvTs, `xmitTs
      ensures Value() == Decode(data)
    {
      hide ReadU32be, ReadTimestamp, SignedByte;
      liVnMode := data[0];
      stratum := data[1];
      poll := SignedByte(data[2]);
      precision := SignedByte(data[3]);
      rootDelay := ReadU32be(data, 4);
      rootDisp := ReadU32be(data, 8);
      refId := ReadU32be(data, 12);
      FillTimestamps(data);
    }

    method FillTimestamps(data: seq<u8>)
      requires |data| >= HEADER_SIZE
      modifies this`refTs, this`origTs, this`recvTs, this`xmitTs
      ensures refTs == ReadTimestamp(data, 16) && origTs == ReadTimestamp(data, 24)
      ensures recvTs == ReadTimestamp(data, 32) && xmitTs == ReadTimestamp(data, 40)
    {
      refTs := ReadTimestamp(data, 16);
      origTs := ReadTimestamp(data, 24);
      recvTs := ReadTimestamp(data, 32);
      xmitTs := ReadTimestamp(data, 40);
    }
  }

  /** A header that parsing accepts is never a Kiss-o'-Death, so the tests for one after a
      successful parse are dead. */
  lemma ParsedIsNeverKod(h: Header)
    requires WellFormed(h)
    ensures !IsKod(h)
  {
  }

  /** Which packets parsing accepts, and which count as a Kiss-o'-Death, by their first bytes. */
  lemma ParsedByBytes(s: seq<u8>)
    requires |s| >= 48
    ensures WellFormed(Decode(s)) <==> s[0] / 8 % 8 == 4 && s[0] % 8 != 0 && s[1] <= 16
    ensures IsKod(Decode(s)) <==> s[1] == 127 && s[0] >= 192
  {
    hide ReadU32be, ReadTimestamp;
  }

  // ---------- requests ----------

  const ZERO_TIMESTAMP: Timestamp := Timestamp(0, 0)

  /** The header of a client request. */
  function RequestHeader(poll: i8, precision: i8, t1: Timestamp): Header {
    Header(PackLiVnMode(0, NTP_VN_4, MODE_CLIENT), 0, if poll < 0 then 12 else poll, precision,
           0, 0, 0, ZERO_TIMESTAMP, ZERO_TIMESTAMP, ZERO_TIMESTAMP, t1)
  }

  /** The bytes of a request: version 4 and mode 3, the poll exponent or 12 for a negative one, the
      precision, zeros, and the transmit time. */
  lemma RequestBytes(poll: i8, precision: i8, t1: Timestamp)
    ensures var s := Encode(RequestHeader(poll, precision, t1));
      && |s| == 48 && s[0] == 35 && s[1] == 0
      && s[2] == (if poll < 0 then 12 else poll) && SignedByte(s[3]) == precision
      && (forall i | 4 <= i < 40 :: s[i] == 0)
      && TimestampAt(s, 40, t1)
  {
    hide Encode;
    var h := RequestHeader(poll, precision, t1);
    var s := Encode(h);
    EncodeLayout(h);
    forall i | 0 <= i < 9 ensures s[4+4*i] == s[5+4*i] == s[6+4*i] == s[7+4*i] == 0 {
      assert WordAt(s, 4 + 4 * i, 0);
    }
    forall i | 4 <= i < 40 ensures s[i] == 0 {
      var q := (i - 4) / 4;
      assert i == 4 + 4 * q || i == 5 + 4 * q || i == 6 + 4 * q || i == 7 + 4 * q;
    }
  }

  /** Writes a whole header into the first 48 bytes, front to back. */
  method WriteHeader(p: array<u8>, h: Header)
    requires p.Length >= HEADER_SIZE
    modifies p
    ensures p[..][..HEADER_SIZE] == Encode(h)
    ensures forall i | HEADER_SIZE <= i < p.Length :: p[i] == old(p[i])
  {
    WriteFront(p, h);
    ghost var s := FrontBytes(h);
    s := WriteTimestamp(p, 16, h.refTs, s);
    s := WriteTimestamp(p, 24, h.origTs, s);
    s := WriteTimestamp(p, 32, h.recvTs, s);
    s := WriteTimestamp(p, 40, h.xmitTs, s);
    assert s == Encode(h);
  }

  method WriteFront(p: array<u8>, h: Header)
    requires p.Length >= HEADER_SIZE
    modifies p
    ensures p[..][..16] == FrontBytes(h)
    ensures forall i | 16 <= i < p.Length :: p[i] == old(p[i])
  {
    p[0], p[1], p[2], p[3] := h.liVnMode, h.stratum, UnsignedByte(h.poll), UnsignedByte(h.precision);
    ghost var s := [h.liVnMode, h.stratum, UnsignedByte(h.poll), UnsignedByte(h.precision)];
    s := WriteNext(p, 4, h.rootDelay, s);
    s := WriteNext(p, 8, h.rootDisp, s);
    s := WriteNext(p, 12, h.refId, s);
  }

  /** Writes one word behind what is already written. */
  method WriteNext(p: array<u8>, at: nat, v: u32, ghost done: seq<u8>) returns (ghost s: seq<u8>)
    requires at + 4 <= p.Length && p[..][..at] == done
    modifies p
    ensures s == done + U32Bytes(v) && p[..][..at+4] == s
    ensures forall i | at + 4 <= i < p.Length :: p[i] == old(p[i])
  {
    WriteU32be(p, at, v);
    s := done + U32Bytes(v);
    assert p[..][at+4..] == old(p[..])[at+4..];
    assert forall i | at + 4 <= i < p.Length :: p[i] == p[..][at+4..][i-at-4];
  }

  method WriteTimestamp(p: array<u8>, at: nat, t: Timestamp, ghost done: seq<u8>) returns (ghost s: seq<u8>)
    requires at + 8 <= p.Length && p[..][..at] == done
    modifies p
    ensures s == done + TimestampBytes(t) && p[..][..at+8] == s
    ensures forall i | at + 8 <= i < p.Length :: p[i] == old(p[i])
  {
    s := WriteNext(p, at, t.sec, done);
    s := WriteNext(p, at + 4, t.frac, s);
  }

  /** Builds a client request carrying the transmit time `t1`; everything else but the first four
      bytes is zero. */
  method CreateNtpRequest(p: array<u8>, poll: i8, precision: i8, t1: Timestamp)
    requires p.Length >= HEADER_SIZE
    modifies p
    ensures p[..][..HEADER_SIZE] == Encode(RequestHeader(poll, precision, t1))
    ensures forall i | HEADER_SIZE <= i < p.Length :: p[i] == old(p[i])
  {
    forall i | 0 <= i < HEADER_SIZE {
      p[i] := 0;
    }
    p[0] := PackLiVnMode(0, NTP_VN_4, MODE_CLIENT);
    p[1] := 0;
    p[2] := UnsignedByte(if poll < 0 then 12 else poll);
    p[3] := UnsignedByte(precision);
    ghost var h := RequestHeader(poll, precision, t1);
    RequestIsMostlyZero(h, p[..][..40]);
    ghost var s := WriteTimestamp(p, 40, t1, p[..][..40]);
    assert s == Encode(h);
  }

  lemma RequestIsMostlyZero(h: Header, s: seq<u8>)
    requires |s| == 40
    requires h.rootDelay == 0 && h.rootDisp == 0 && h.refId == 0
    requires h.refTs == h.origTs == h.recvTs == ZERO_TIMESTAMP
    requires s[0] == h.liVnMode && s[1] == h.stratum
    requires s[2] == UnsignedByte(h.poll) && s[3] == UnsignedByte(h.precision)
    requires forall i | 4 <= i < 40 :: s[i] == 0
    ensures s + TimestampBytes(h.xmitTs) == Encode(h)
  {
    var z := U32Bytes(0);
    assert z == [0, 0, 0, 0];
    assert s[..16] == FrontBytes(h);
    assert s[16..24] == TimestampBytes(ZERO_TIMESTAMP);
    assert s[24..32] == TimestampBytes(ZERO_TIMESTAMP);
    assert s[32..40] == TimestampBytes(ZERO_TIMESTAMP);
    assert s == s[..16] + (s[16..24] + s[24..32]) + s[32..40];
  }
}
