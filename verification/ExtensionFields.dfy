/** The walker over the extension fields behind the header, which looks for a message
    authentication code (section 7.5 of RFC 5905). */
module ExtensionFields {
  import opened Words
  import opened Wire

  const TYPE_MAC := 0x0003
  const TYPE_LAST := 0x0008

  /** What the walker reports: no code, a code, or a code while authentication is disabled. */
  datatype Verdict = Absent | Present | NotSupported

  function Word16(s: seq<u8>, at: nat): u16
    requires at + 2 <= |s|
  {
    (s[at] as int) * 0x100 + s[at+1]
  }

  function RoundUp4(n: nat): (r: nat)
    ensures n <= r < n + 4 && r % 4 == 0
  {
    (n + 3) / 4 * 4
  }

  function OnMac(authEnabled: bool): Verdict {
    if authEnabled then Present else NotSupported
  }

  /** The walk from position `pos`. */
  function Walk(data: seq<u8>, pos: nat, authEnabled: bool): Verdict
    decreases Max(0, |data| - pos)
  {
    if pos + 4 > |data| then Absent
    else
      var fieldType, fieldLen := Word16(data, pos), Word16(data, pos + 2);
      if fieldLen < 4 || pos + fieldLen > |data| then Absent
      else if fieldType == TYPE_MAC then OnMac(authEnabled)
      else if fieldType == TYPE_LAST then Absent
      else Walk(data, pos + RoundUp4(fieldLen), authEnabled)
  }

  /** The whole check; `None` stands for a missing buffer. */
  method ValidatePacketAuthentication(buffer: Option<seq<u8>>, authEnabled: bool) returns (v: Verdict)
    ensures v == if buffer == None then Absent else Walk(buffer.value, HEADER_SIZE, authEnabled)
  {
    if buffer == None || |buffer.value| < HEADER_SIZE {
      return Absent;
    }
    var data := buffer.value;
    var size := |data|;
    if size > HEADER_SIZE {
      var pos := HEADER_SIZE;
      while pos + 4 <= size
        invariant pos >= HEADER_SIZE
        invariant Walk(data, pos, authEnabled) == Walk(data, HEADER_SIZE, authEnabled)
        decreases size - pos
      {
        var fieldType, fieldLen := Word16(data, pos), Word16(data, pos + 2);
        if fieldLen < 4 || pos + fieldLen > size {
          break;
        }
        if fieldType == TYPE_MAC {
          if !authEnabled {
            return NotSupported;
          }
          return Present;
        }
        pos := pos + RoundUp4(fieldLen);
        if fieldType == TYPE_LAST {
          return Absent;
        }
      }
    }
    return Absent;
  }

  // ---------- well-formed fields ----------

  /** An extension field: its type and its value, which is padded to whole words on the wire. */
  datatype Field = Field(fieldType: u16, body: seq<u8>) {
    predicate WellFormed() {
      |body| + 4 < 0x1_0000
    }

    function Length(): nat {
      |body| + 4
    }
  }

  function Padding(n: nat): (p: seq<u8>)
    ensures |p| == RoundUp4(n) - n
  {
    seq(RoundUp4(n) - n, _ => 0)
  }

  function EncodeField(f: Field): (r: seq<u8>)
    requires f.WellFormed()
    ensures |r| == RoundUp4(f.Length())
  {
    [f.fieldType / 0x100, f.fieldType % 0x100, f.Length() / 0x100, f.Length() % 0x100] + f.body + Padding(f.Length())
  }

  /** A field on the wire: type and length, most significant byte first, then the value, padded with
      zeros to a multiple of four bytes; the length counts the four bytes of the head. */
  lemma FieldLayout(f: Field)
    requires f.WellFormed()
    ensures var e, n := EncodeField(f), |f.body| + 4;
      && |e| % 4 == 0 && n <= |e| < n + 4
      && 256 * (e[0] as int) + e[1] == f.fieldType && 256 * (e[2] as int) + e[3] == n
      && e[4..n] == f.body && forall i | n <= i < |e| :: e[i] == 0
  {
  }

  function EncodeFields(fs: seq<Field>): seq<u8>
    requires forall f | f in fs :: f.WellFormed()
  {
    if fs == [] then [] else EncodeField(fs[0]) + EncodeFields(fs[1..])
  }

  /** A MAC field comes before the first end marker. */
  predicate HoldsMac(fs: seq<Field>) {
    fs != [] && (fs[0].fieldType == TYPE_MAC || (fs[0].fieldType != TYPE_LAST && HoldsMac(fs[1..])))
  }

  lemma {:induction false} HoldsMacMeans(fs: seq<Field>)
    ensures HoldsMac(fs) <==>
      exists i :: 0 <= i < |fs| && fs[i].fieldType == TYPE_MAC && forall j | 0 <= j < i :: fs[j].fieldType != TYPE_LAST
  {
    if fs != [] && fs[0].fieldType != TYPE_MAC {
      var rest := fs[1..];
      HoldsMacMeans(rest);
      if i :| 0 <= i < |fs| && fs[i].fieldType == TYPE_MAC && forall j | 0 <= j < i :: fs[j].fieldType != TYPE_LAST {
        assert rest[i-1] == fs[i] && forall j | 0 <= j < i - 1 :: rest[j] == fs[j+1];
      }
      if fs[0].fieldType != TYPE_LAST && HoldsMac(rest) {
        var i :| 0 <= i < |rest| && rest[i].fieldType == TYPE_MAC && forall j | 0 <= j < i :: rest[j].fieldType != TYPE_LAST;
        assert fs[i+1].fieldType == TYPE_MAC && forall j | 1 <= j < i + 1 :: fs[j] == rest[j-1];
      }
    }
  }

  /** One step of the walk reads the head of a well-formed field as it was written. */
  lemma StepReadsField(before: seq<u8>, f: Field, rest: seq<u8>)
    requires f.WellFormed()
    ensures var data := before + EncodeField(f) + rest;
      && |before| + RoundUp4(f.Length()) <= |data|
      && Word16(data, |before|) == f.fieldType
      && Word16(data, |before| + 2) == f.Length()
  {
    var data, e := before + EncodeField(f) + rest, EncodeField(f);
    var p := |before|;
    assert data[p] == e[0] && data[p+1] == e[1] && data[p+2] == e[2] && data[p+3] == e[3];
  }

  /** The walk stops at a MAC or an end marker and steps over every other field. */
  lemma WalkField(before: seq<u8>, f: Field, rest: seq<u8>, authEnabled: bool)
    requires f.WellFormed()
    ensures var data := before + EncodeField(f) + rest;
      Walk(data, |before|, authEnabled) ==
        if f.fieldType == TYPE_MAC then OnMac(authEnabled)
        else if f.fieldType == TYPE_LAST then Absent
        else Walk(data, |before + EncodeField(f)|, authEnabled)
  {
    StepReadsField(before, f, rest);
  }

  lemma NoFields(fs: seq<Field>)
    requires fs == []
    ensures EncodeFields(fs) == []
  {
  }

  lemma FirstField(fs: seq<Field>)
    requires fs != [] && forall f | f in fs :: f.WellFormed()
    ensures EncodeFields(fs) == EncodeField(fs[0]) + EncodeFields(fs[1..])
  {
  }

  /** The two ways of grouping four pieces of a packet. */
  lemma Regroup(a: seq<u8>, b: seq<u8>, c: seq<u8>, d: seq<u8>)
    ensures a + (b + c) + d == a + b + (c + d) && a + b + c + d == a + b + (c + d)
    ensures a + (b + c) == a + b + c && a + [] == a
  {
  }

  /** On the bytes of any list of well-formed fields the walker reports a MAC exactly when a MAC
      field comes before the first end marker. */
  lemma {:induction false} WalkFindsMac(before: seq<u8>, fs: seq<Field>, authEnabled: bool)
    requires forall f | f in fs :: f.WellFormed()
    ensures Walk(before + EncodeFields(fs), |before|, authEnabled) ==
      if HoldsMac(fs) then OnMac(authEnabled) else Absent
    decreases |fs|
  {
    if fs == [] {
      NoFields(fs);
      assert before + EncodeFields(fs) == before;
    } else {
      var f, rest := fs[0], EncodeFields(fs[1..]);
      FirstField(fs);
      Regroup(before, EncodeField(f), rest, []);
      WalkField(before, f, rest, authEnabled);
      WalkFindsMac(before + EncodeField(f), fs[1..], authEnabled);
    }
  }

  /** The packet form of `WalkFindsMac`: any header followed by any well-formed fields. */
  lemma PacketReportsMac(header: seq<u8>, fs: seq<Field>, authEnabled: bool)
    requires |header| == HEADER_SIZE && forall f | f in fs :: f.WellFormed()
    ensures Walk(header + EncodeFields(fs), 48, authEnabled) != Absent <==>
      exists i :: 0 <= i < |fs| && fs[i].fieldType == 3 && forall j | 0 <= j < i :: fs[j].fieldType != 8
    ensures Walk(header + EncodeFields(fs), 48, authEnabled) in
      if authEnabled then {Absent, Present} else {Absent, NotSupported}
  {
    WalkFindsMac(header, fs, authEnabled);
    HoldsMacMeans(fs);
  }

  /** A reported code cannot be hidden by appending bytes. */
  lemma {:induction false} ReportSurvivesAppending(data: seq<u8>, more: seq<u8>, pos: nat, authEnabled: bool)
    requires Walk(data, pos, authEnabled) != Absent
    ensures Walk(data + more, pos, authEnabled) == Walk(data, pos, authEnabled)
    decreases Max(0, |data| - pos)
  {
    var d := data + more;
    assert d[pos] == data[pos] && d[pos+1] == data[pos+1] && d[pos+2] == data[pos+2] && d[pos+3] == data[pos+3];
    if Word16(data, pos) != TYPE_MAC {
      ReportSurvivesAppending(data, more, pos + RoundUp4(Word16(data, pos + 2)), authEnabled);
    }
  }

  /** Bytes that do not start a field: fewer than four, or a length below four or beyond the end. */
  predicate Malformed(junk: seq<u8>) {
    |junk| < 4 || 256 * (junk[2] as int) + junk[3] < 4 || 256 * (junk[2] as int) + junk[3] > |junk|
  }

  /** Fields that are neither a code nor an end marker, and then bytes that do not start a field, hold no
      code, whatever those bytes are. */
  lemma {:induction false} MalformedEndsWalk(before: seq<u8>, fs: seq<Field>, junk: seq<u8>, authEnabled: bool)
    requires forall f | f in fs :: f.WellFormed() && f.fieldType != 3 && f.fieldType != 8
    requires Malformed(junk)
    ensures Walk(before + EncodeFields(fs) + junk, |before|, authEnabled) == Absent
    decreases |fs|
  {
    hide EncodeField, EncodeFields;
    if fs == [] {
      NoFields(fs);
      assert before + EncodeFields(fs) + junk == before + junk;
    } else {
      var f, others := fs[0], EncodeFields(fs[1..]);
      FirstField(fs);
      Regroup(before, EncodeField(f), others, junk);
      WalkField(before, f, others + junk, authEnabled);
      MalformedEndsWalk(before + EncodeField(f), fs[1..], junk, authEnabled);
    }
  }

  /** What follows the end marker is never looked at. */
  lemma {:induction false} NothingBehindEndMarker(before: seq<u8>, fs: seq<Field>, last: Field, rest: seq<u8>, authEnabled: bool)
    requires forall f | f in fs :: f.WellFormed() && f.fieldType != TYPE_MAC
    requires last.WellFormed() && last.fieldType == TYPE_LAST
    ensures Walk(before + EncodeFields(fs) + (EncodeField(last) + rest), |before|, authEnabled) == Absent
    decreases |fs|
  {
    hide Walk, EncodeField, EncodeFields;
    var tail := EncodeField(last) + rest;
    if fs == [] {
      NoFields(fs);
      Regroup(before, EncodeField(last), rest, []);
      WalkField(before, last, rest, authEnabled);
    } else {
      var f, others := fs[0], EncodeFields(fs[1..]);
      FirstField(fs);
      Regroup(before, EncodeField(f), others, tail);
      WalkField(before, f, others + tail, authEnabled);
      NothingBehindEndMarker(before + EncodeField(f), fs[1..], last, rest, authEnabled);
    }
  }
}
