/**
 * The fixed header at the front of every event sample, the alignment footer
 * `{Index, PartRawSize}` at the end of the raw sample (recording the size of
 * the data before it, `size_before`, ahead of the trailing padding), and the
 * thread identifier built from the header (`ContextEvent.ParseContext`, `ParsePadding`, `GetUUID`).
 */
module EventHeader {
  import opened Results
  import opened Bytes
  import opened Text
  import opened Cursor

  /**
   * The header fields in the order they are read, as (offset, size) pairs:
   * ts (u64), eventid, host_tid, host_pid, tid, pid, uid (u32 each),
   * comm[16], argnum (u8), padding[7].
   */
  const HeaderLayout: seq<(nat, nat)> :=
    [(0, 8), (8, 4), (12, 4), (16, 4), (20, 4), (24, 4), (28, 4), (32, 16), (48, 1), (49, 7)]

  const HeaderSize: nat := 56

  datatype Header = Header(
    ts: nat,
    eventId: nat,
    hostTid: nat,
    hostPid: nat,
    tid: nat,
    pid: nat,
    uid: nat,
    comm: seq<byte>,
    argnum: nat,
    padding: seq<byte>)

  /** Every field fits the width it has in the sample. */
  predicate WellFormedHeader(h: Header) {
    && h.ts < Pow256(8)
    && h.eventId < Pow256(4) && h.hostTid < Pow256(4) && h.hostPid < Pow256(4)
    && h.tid < Pow256(4) && h.pid < Pow256(4) && h.uid < Pow256(4)
    && |h.comm| == 16 && h.argnum < Pow256(1) && |h.padding| == 7
  }

  /** The bytes a header occupies at the front of a sample. */
  function EncodeHeader(h: Header): (b: seq<byte>)
    requires WellFormedHeader(h)
    ensures |b| == HeaderSize
  {
    LeEncode(h.ts, 8) + LeEncode(h.eventId, 4) + LeEncode(h.hostTid, 4) + LeEncode(h.hostPid, 4)
    + LeEncode(h.tid, 4) + LeEncode(h.pid, 4) + LeEncode(h.uid, 4) + h.comm + LeEncode(h.argnum, 1)
    + h.padding
  }

  /**
   * Reads the header from the start of the sample: each field little-endian
   * at its fixed offset, 56 bytes in all.  A sample too short for some field
   * fails with a short read at that field; nothing is zero-filled.
   */
  function ParseContext(s: seq<byte>): (r: Decoding<Header>)
    ensures r.Ok? <==> HeaderSize <= |s|
    ensures r.Ok? ==> r.value.next == HeaderSize
    ensures r.Ok? ==>
      var h := r.value.value;
      && h.ts == LeValue(s[0..8]) && h.eventId == LeValue(s[8..12])
      && h.hostTid == LeValue(s[12..16]) && h.hostPid == LeValue(s[16..20])
      && h.tid == LeValue(s[20..24]) && h.pid == LeValue(s[24..28]) && h.uid == LeValue(s[28..32])
      && h.comm == s[32..48] && h.argnum == LeValue(s[48..49]) && h.padding == s[49..56]
    ensures r.Err? ==>
      && r.error.ShortRead?
      && (r.error.at, r.error.wanted) in HeaderLayout
      && r.error.at <= |s| < r.error.at + r.error.wanted
  {
    var ts :- ReadUint(s, 0, 8);
    var eventId :- ReadUint(s, ts.next, 4);
    var hostTid :- ReadUint(s, eventId.next, 4);
    var hostPid :- ReadUint(s, hostTid.next, 4);
    var tid :- ReadUint(s, hostPid.next, 4);
    var pid :- ReadUint(s, tid.next, 4);
    var uid :- ReadUint(s, pid.next, 4);
    var comm :- Read(s, uid.next, 16);
    var argnum :- ReadUint(s, comm.next, 1);
    var padding :- Read(s, argnum.next, 7);
    Ok(Decoded(
      Header(ts.value, eventId.value, hostTid.value, hostPid.value, tid.value, pid.value, uid.value,
             comm.value, argnum.value, padding.value),
      padding.next))
  }

  /** An encoded header, whatever follows it, parses back to itself and consumes exactly its 56 bytes. */
  lemma HeaderRoundTrip(h: Header, rest: seq<byte>)
    requires WellFormedHeader(h)
    ensures ParseContext(EncodeHeader(h) + rest) == Ok(Decoded(h, HeaderSize))
  {
    var s := EncodeHeader(h) + rest;
    assert s[0..8] == LeEncode(h.ts, 8);
    assert s[8..12] == LeEncode(h.eventId, 4);
    assert s[12..16] == LeEncode(h.hostTid, 4);
    assert s[16..20] == LeEncode(h.hostPid, 4);
    assert s[20..24] == LeEncode(h.tid, 4);
    assert s[24..28] == LeEncode(h.pid, 4);
    assert s[28..32] == LeEncode(h.uid, 4);
    assert s[32..48] == h.comm;
    assert s[48..49] == LeEncode(h.argnum, 1);
    assert s[49..56] == h.padding;
    LeValueOfEncode(h.ts, 8);
    LeValueOfEncode(h.eventId, 4);
    LeValueOfEncode(h.hostTid, 4);
    LeValueOfEncode(h.hostPid, 4);
    LeValueOfEncode(h.tid, 4);
    LeValueOfEncode(h.pid, 4);
    LeValueOfEncode(h.uid, 4);
    LeValueOfEncode(h.argnum, 1);
  }

  /** A longer prefix is the shorter one followed by the bytes in between. */
  lemma PrefixGrows(s: seq<byte>, i: nat, j: nat)
    requires i <= j <= |s|
    ensures s[..j] == s[..i] + s[i..j]
  {
  }

  /** A header whose fields are the values of a sample's first 56 bytes re-encodes to exactly those bytes. */
  lemma FieldsEncode(s: seq<byte>, h: Header)
    requires |s| >= HeaderSize
    requires && h.ts == LeValue(s[0..8]) && h.eventId == LeValue(s[8..12])
             && h.hostTid == LeValue(s[12..16]) && h.hostPid == LeValue(s[16..20])
             && h.tid == LeValue(s[20..24]) && h.pid == LeValue(s[24..28]) && h.uid == LeValue(s[28..32])
             && h.comm == s[32..48] && h.argnum == LeValue(s[48..49]) && h.padding == s[49..56]
    ensures WellFormedHeader(h) && EncodeHeader(h) == s[..HeaderSize]
  {
    LeEncodeOfValue(s[0..8]);
    LeEncodeOfValue(s[8..12]);
    LeEncodeOfValue(s[12..16]);
    LeEncodeOfValue(s[16..20]);
    LeEncodeOfValue(s[20..24]);
    LeEncodeOfValue(s[24..28]);
    LeEncodeOfValue(s[28..32]);
    LeEncodeOfValue(s[48..49]);
    PrefixGrows(s, 8, 12);
    PrefixGrows(s, 12, 16);
    PrefixGrows(s, 16, 20);
    PrefixGrows(s, 20, 24);
    PrefixGrows(s, 24, 28);
    PrefixGrows(s, 28, 32);
    PrefixGrows(s, 32, 48);
    PrefixGrows(s, 48, 49);
    PrefixGrows(s, 49, 56);
    assert s[..8] == s[0..8];
  }

  /** A parsed header is well formed and re-encodes to exactly the 56 bytes it was read from. */
  lemma ParsedHeaderEncodes(s: seq<byte>)
    requires ParseContext(s).Ok?
    ensures WellFormedHeader(ParseContext(s).value.value)
    ensures EncodeHeader(ParseContext(s).value.value) == s[..HeaderSize]
  {
    FieldsEncode(s, ParseContext(s).value.value);
  }

  /** A decoded event: its header and the size of the data before the footer, as the footer reports it. */
  datatype ContextEvent = ContextEvent(header: Header, partRawSize: nat)

  /** `binary.Size` of the footer `{Index uint8; PartRawSize uint32}`: packed, 5 bytes. */
  const FooterSize: nat := 5

  /**
   * The padding size as the source computes it in uint32 arithmetic:
   * `4 - (PartRawSize + 5) % 4`, where 4 stands for "no padding".
   */
  function PaddingSize(partRawSize: nat): (pad: nat)
    requires partRawSize < U32Modulus
    ensures 1 <= pad <= 4
    ensures (partRawSize + FooterSize + pad) % 4 == 0
  {
    var sum := (partRawSize + FooterSize) % U32Modulus;
    assert sum % 4 == (partRawSize + FooterSize) % 4;
    4 - sum % 4
  }

  /** The number of padding bytes actually skipped: none when the padding size is 4. */
  function SkippedBytes(partRawSize: nat): nat
    requires partRawSize < U32Modulus
  {
    var pad := PaddingSize(partRawSize);
    if pad != 4 then pad else 0
  }

  /**
   * Reads the alignment footer at `pos`, records the size of the data before
   * it in the event, and skips the padding that realigns the sample to 4
   * bytes: the footer and the skipped bytes are consumed, their contents
   * otherwise ignored.
   */
  function ParsePadding(ev: ContextEvent, s: seq<byte>, pos: nat): (r: Decoding<ContextEvent>)
    ensures |s| < pos + FooterSize ==> r == Err(ShortRead(pos, FooterSize))
    ensures pos + FooterSize <= |s| ==>
      var partRawSize := LeValue(s[pos + 1..pos + FooterSize]);
      var skip := SkippedBytes(partRawSize);
      && (r.Ok? <==> pos + FooterSize + skip <= |s|)
      && (r.Ok? ==> r.value == Decoded(ev.(partRawSize := partRawSize), pos + FooterSize + skip))
      && (r.Err? ==> r.error == ShortRead(pos + FooterSize, skip))
    ensures r.Ok? ==>
      var skip := r.value.next - (pos + FooterSize);
      && 0 <= skip <= 3
      && (r.value.value.partRawSize + FooterSize + skip) % 4 == 0
      && r.value.value.header == ev.header
  {
    var footer :- Read(s, pos, FooterSize);
    var partRawSize := LeValue(footer.value[1..FooterSize]);
    assert footer.value[1..FooterSize] == s[pos + 1..pos + FooterSize];
    Pow256FourIsU32();
    var padding := PaddingSize(partRawSize);
    if padding != 4 then
      var skipped :- Read(s, footer.next, padding);
      Ok(Decoded(ev.(partRawSize := partRawSize), skipped.next))
    else
      Ok(Decoded(ev.(partRawSize := partRawSize), footer.next))
  }

  /** The data before the footer, the footer and `k` further bytes end on a 4-byte boundary. */
  predicate AlignedAfter(partRawSize: nat, k: nat) {
    (partRawSize + FooterSize + k) % 4 == 0
  }

  /**
   * The skip is the least number of bytes that brings the data before the
   * footer and the footer to a multiple of 4, `(4 - (s + 5) % 4) % 4`: the
   * uint32 wrap-around of the sum never changes it.
   */
  lemma {:induction false} SkipIsLeastAlignment(partRawSize: nat)
    requires partRawSize < U32Modulus
    ensures SkippedBytes(partRawSize) == (4 - (partRawSize + FooterSize) % 4) % 4
    ensures forall k: nat :: k < SkippedBytes(partRawSize) ==> !AlignedAfter(partRawSize, k)
  {
    var pad := PaddingSize(partRawSize);
    assert pad == 4 - (partRawSize + FooterSize) % 4;
  }

  /** A decimal numeral contains no `_`. */
  lemma DecimalHasNoUnderscore(n: nat)
    ensures '_' !in Decimal(n)
  {
    var d := Decimal(n);
    forall j | 0 <= j < |d|
      ensures d[j] != '_'
    {
      assert DigitValue(d[j]) < 10;
    }
  }

  /** The pid and tid a thread identifier was built from. */
  function ParseUuid(u: string): (ids: (nat, nat)) {
    var parts := Split(u, '_');
    if |parts| == 2 then (NumeralValue(parts[0], 10), NumeralValue(parts[1], 10)) else (0, 0)
  }

  /** The thread identifier `"<pid>_<tid>"`: it names its thread, since pid and tid can be read back from it. */
  function GetUuid(h: Header): (u: string)
    ensures ParseUuid(u) == (h.pid, h.tid)
  {
    var items := [Decimal(h.pid), Decimal(h.tid)];
    DecimalHasNoUnderscore(h.pid);
    DecimalHasNoUnderscore(h.tid);
    SplitJoin(items, '_');
    NumeralRoundTrip(h.pid, 10);
    NumeralRoundTrip(h.tid, 10);
    Join(items, "_")
  }

  /** Two headers with the same identifier belong to the same pid and tid. */
  lemma UuidIdentifiesThread(h1: Header, h2: Header)
    requires GetUuid(h1) == GetUuid(h2)
    ensures h1.pid == h2.pid && h1.tid == h2.tid
  {
  }
}
