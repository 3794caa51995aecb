/**
 * Type-directed decoding of one traced argument (`ContextEvent.ParseArgByType`
 * and `ContextEvent.ParseArg`): the one-level pointer shell, then a dispatch
 * on the argument's alias type to exactly one structural decoder, each of
 * which consumes exactly the bytes its layout or its embedded lengths
 * dictate and renders them as one display string.
 *
 * Record layouts and renderings defined outside the event file are
 * parameters: a `CountedRecord` is a fixed-size record carrying one count or
 * address, a `FixedStruct` a C structure of fixed size with its `Format()`.
 */
module ArgDecoder {
  import opened Results
  import opened Bytes
  import opened Text
  import opened ArgTypes
  import opened Cursor

  /**
   * One traced argument of a probe point (`config.PointArg`): its declared
   * type, its alias type, the byte size of an opaque structure, and the
   * display strings decoded for it so far.
   */
  datatype PointArg = PointArg(argType: TypeId, aliasType: TypeId, size: nat, values: seq<string>)

  /** `pa` with one more display string (`AppendValue`). */
  function Appended(pa: PointArg, v: string): PointArg {
    pa.(values := pa.values + [v])
  }

  /** A register slot (`Arg_reg`) as read from the sample; only its address is used. */
  datatype Reg = Reg(address: nat)

  /**
   * A fixed-size record whose bytes carry one count: the address of
   * `Arg_reg`, the length of `Arg_str`, the element count of `Arg_str_arr`,
   * the buffer length of `Arg_Iovec`.
   */
  datatype CountedRecord = CountedRecord(size: nat, count: seq<byte> -> nat)

  /** A C structure of fixed layout: its byte size and its rendering. */
  datatype FixedStruct = FixedStruct(size: nat, render: seq<byte> -> string)

  /** The record layouts the decoder reads. */
  datatype Abi = Abi(
    reg: CountedRecord,
    str: CountedRecord,
    strArr: CountedRecord,
    iovec: CountedRecord,
    fixed: TypeId -> FixedStruct)

  /** The renderings the decoder delegates. */
  datatype Formats = Formats(
    trim: seq<byte> -> string,                         // util.B2STrim of a payload
    buffer: (seq<byte>, seq<byte>) -> string,           // Arg_Buffer_t.Format of header and payload
    bufferHex: (bool, seq<byte>, seq<byte>) -> string,  // Arg_Buffer_t.HexFormat(color)
    iovec: (seq<byte>, seq<byte>) -> string)            // Arg_Iovec_t.Format of header and payload

  /** What decoding depends on besides the sample: layouts, renderings, and the DumpHex and Color options. */
  datatype Decoder = Decoder(abi: Abi, formats: Formats, dumpHex: bool, color: bool)

  /** One register slot. */
  function ReadReg(rec: CountedRecord, s: seq<byte>, pos: nat): (r: Decoding<Reg>)
    ensures r.Ok? <==> pos + rec.size <= |s|
    ensures r.Ok? ==> r.value == Decoded(Reg(rec.count(s[pos..pos + rec.size])), pos + rec.size)
    ensures r.Err? ==> r.error == ShortRead(pos, rec.size)
  {
    var bytes :- Read(s, pos, rec.size);
    Ok(Decoded(Reg(rec.count(bytes.value)), bytes.next))
  }

  /** A counted record and then as many payload bytes as it counts. */
  function ReadCounted(rec: CountedRecord, s: seq<byte>, pos: nat): (r: Decoding<(seq<byte>, seq<byte>)>)
    ensures ConsumesCounted(rec, s, pos, r)
    ensures r.Ok? ==> r.value.value == (s[pos..pos + rec.size], CountedPayload(rec, s, pos))
  {
    var header :- Read(s, pos, rec.size);
    var payload :- Read(s, header.next, rec.count(header.value));
    Ok(Decoded((header.value, payload.value), payload.next))
  }

  /**
   * `r` consumed a counted record at `pos` and exactly the payload it counts,
   * and failed with a short read exactly when the record or the payload runs
   * past the end of the sample.
   */
  predicate ConsumesCounted<T>(rec: CountedRecord, s: seq<byte>, pos: nat, r: Decoding<T>) {
    if |s| < pos + rec.size then r.Err? && r.error == ShortRead(pos, rec.size)
    else
      var n := rec.count(s[pos..pos + rec.size]);
      if |s| < pos + rec.size + n then r.Err? && r.error == ShortRead(pos + rec.size, n)
      else r.Ok? && r.value.next == pos + rec.size + n
  }

  /** The payload of the counted record at `pos`. */
  function CountedPayload(rec: CountedRecord, s: seq<byte>, pos: nat): seq<byte>
    requires pos + rec.size <= |s|
    requires pos + rec.size + rec.count(s[pos..pos + rec.size]) <= |s|
  {
    s[pos + rec.size..pos + rec.size + rec.count(s[pos..pos + rec.size])]
  }

  /** TYPE_BUFFER_T: a length-prefixed buffer, shown as a hex dump when DumpHex is set and as text otherwise. */
  function ParseBuffer(d: Decoder, s: seq<byte>, pos: nat): (r: Decoding<string>)
    ensures ConsumesCounted(d.abi.str, s, pos, r)
    ensures r.Ok? ==>
      var header := s[pos..pos + d.abi.str.size];
      var payload := CountedPayload(d.abi.str, s, pos);
      r.value.value == if d.dumpHex then d.formats.bufferHex(d.color, header, payload)
                       else d.formats.buffer(header, payload)
  {
    var buf :- ReadCounted(d.abi.str, s, pos);
    var (header, payload) := buf.value;
    var text := if d.dumpHex then d.formats.bufferHex(d.color, header, payload) else d.formats.buffer(header, payload);
    Ok(Decoded(text, buf.next))
  }

  /** TYPE_STRING: a length-prefixed string, shown trimmed in parentheses. */
  function ParseString(d: Decoder, s: seq<byte>, pos: nat): (r: Decoding<string>)
    ensures ConsumesCounted(d.abi.str, s, pos, r)
    ensures r.Ok? ==> r.value.value == "(" + d.formats.trim(CountedPayload(d.abi.str, s, pos)) + ")"
  {
    var str :- ReadCounted(d.abi.str, s, pos);
    Ok(Decoded("(" + d.formats.trim(str.value.1) + ")", str.next))
  }

  /** TYPE_IOVEC: an `Arg_Iovec` record and the buffer it counts. */
  function ParseIovec(d: Decoder, s: seq<byte>, pos: nat): (r: Decoding<string>)
    ensures ConsumesCounted(d.abi.iovec, s, pos, r)
    ensures r.Ok? ==>
      r.value.value == d.formats.iovec(s[pos..pos + d.abi.iovec.size], CountedPayload(d.abi.iovec, s, pos))
  {
    var iov :- ReadCounted(d.abi.iovec, s, pos);
    Ok(Decoded(d.formats.iovec(iov.value.0, iov.value.1), iov.next))
  }

  /** `count` strings, each a little-endian u32 length and that many payload bytes, trimmed. */
  function ReadStrings(trim: seq<byte> -> string, s: seq<byte>, pos: nat, count: nat): (r: Decoding<seq<string>>)
    ensures r.Ok? ==> |r.value.value| == count && pos + 4 * count <= r.value.next
    ensures r.Ok? ==> r.value.next <= |s| || r.value.next == pos
    ensures r.Err? ==> r.error.ShortRead?
    decreases count
  {
    if count == 0 then Ok(Decoded([], pos))
    else
      var len :- ReadUint(s, pos, 4);
      var payload :- Read(s, len.next, len.value);
      var rest :- ReadStrings(trim, s, payload.next, count - 1);
      Ok(Decoded([trim(payload.value)] + rest.value, rest.next))
  }

  /** TYPE_STRING_ARR: a counted array of length-prefixed strings, shown as `[a, b, ...]`. */
  function ParseStringArr(d: Decoder, s: seq<byte>, pos: nat): (r: Decoding<string>)
    ensures |s| < pos + d.abi.strArr.size ==> r == Err(ShortRead(pos, d.abi.strArr.size))
    ensures pos + d.abi.strArr.size <= |s| ==>
      var count := d.abi.strArr.count(s[pos..pos + d.abi.strArr.size]);
      && (r.Ok? ==> pos + d.abi.strArr.size + 4 * count <= r.value.next <= |s|)
      && (count == 0 ==> r == Ok(Decoded("[]", pos + d.abi.strArr.size)))
    ensures r.Err? ==> r.error.ShortRead?
  {
    var header :- Read(s, pos, d.abi.strArr.size);
    var items :- ReadStrings(d.formats.trim, s, header.next, d.abi.strArr.count(header.value));
    assert |items.value| == 0 ==> "[" + Join(items.value, ", ") + "]" == "[]";
    Ok(Decoded("[" + Join(items.value, ", ") + "]", items.next))
  }

  /** TYPE_POINTER as an alias type: one register, shown as its address. */
  function ParseRegister(d: Decoder, s: seq<byte>, pos: nat): (r: Decoding<string>)
    ensures r.Ok? <==> pos + d.abi.reg.size <= |s|
    ensures r.Ok? ==>
      r.value == Decoded("(0x" + Hex(d.abi.reg.count(s[pos..pos + d.abi.reg.size])) + ")", pos + d.abi.reg.size)
    ensures r.Err? ==> r.error == ShortRead(pos, d.abi.reg.size)
  {
    var reg :- ReadReg(d.abi.reg, s, pos);
    Ok(Decoded("(0x" + Hex(reg.value.address) + ")", reg.next))
  }

  /** The bytes of a `[8]uint32` signal set. */
  const SigsetSize: nat := 32

  /** The 32-bit words of `b`, little-endian, four bytes each. */
  function Words(b: seq<byte>): (ws: seq<nat>)
    requires |b| % 4 == 0
    ensures |ws| == |b| / 4
    ensures forall i :: 0 <= i < |ws| ==> ws[i] == LeValue(b[4 * i..4 * i + 4])
  {
    if |b| == 0 then []
    else
      var ws := [LeValue(b[..4])] + Words(b[4..]);
      assert forall i :: 1 <= i < |ws| ==> b[4 * i..4 * i + 4] == b[4..][4 * (i - 1)..4 * (i - 1) + 4];
      ws
  }

  /** Each word as `0x<hex>`. */
  function HexWords(ws: seq<nat>): (items: seq<string>)
    ensures |items| == |ws|
    ensures forall i :: 0 <= i < |ws| ==> items[i] == "0x" + Hex(ws[i])
  {
    if |ws| == 0 then [] else ["0x" + Hex(ws[0])] + HexWords(ws[1..])
  }

  /** The rendering of a signal set: `(sigs=[0x..,0x..,...])`. */
  function SigsetText(ws: seq<nat>): string {
    "(sigs=[" + Join(HexWords(ws), ",") + "])"
  }

  /** The words a signal-set rendering was made from. */
  function SigsetTextWords(t: string): seq<nat> {
    if |t| < 9 then [] else UnhexWords(Split(t[7..|t| - 2], ','))
  }

  /** The values of `0x<hex>` items. */
  function UnhexWords(items: seq<string>): (ws: seq<nat>)
    ensures |ws| == |items|
  {
    if |items| == 0 then []
    else
      var item := items[0];
      [if |item| < 2 then 0 else NumeralValue(item[2..], 16)] + UnhexWords(items[1..])
  }

  /** TYPE_SIGSET: 32 bytes read as eight little-endian u32 words. */
  function ParseSigset(s: seq<byte>, pos: nat): (r: Decoding<string>)
    ensures r.Ok? <==> pos + SigsetSize <= |s|
    ensures r.Ok? ==> r.value == Decoded(SigsetText(Words(s[pos..pos + SigsetSize])), pos + SigsetSize)
    ensures r.Err? ==> r.error == ShortRead(pos, SigsetSize)
  {
    var sigs :- Read(s, pos, SigsetSize);
    Ok(Decoded(SigsetText(Words(sigs.value)), sigs.next))
  }

  /** TYPE_STRUCT: `size` opaque bytes, shown as `([hex]<two hex digits per byte>)`. */
  function ParseStruct(size: nat, s: seq<byte>, pos: nat): (r: Decoding<string>)
    ensures r.Ok? <==> pos + size <= |s|
    ensures r.Ok? ==> r.value.next == pos + size && |r.value.value| == 7 + 2 * size
    ensures r.Ok? ==> r.value.value == "([hex]" + HexBytes(s[pos..pos + size]) + ")"
    ensures r.Err? ==> r.error == ShortRead(pos, size)
  {
    var payload :- Read(s, pos, size);
    Ok(Decoded("([hex]" + HexBytes(payload.value) + ")", payload.next))
  }

  /** A fixed-layout structure: exactly its size in bytes, shown by its own rendering. */
  function ParseFixed(st: FixedStruct, s: seq<byte>, pos: nat): (r: Decoding<string>)
    ensures r.Ok? <==> pos + st.size <= |s|
    ensures r.Ok? ==> r.value == Decoded(st.render(s[pos..pos + st.size]), pos + st.size)
    ensures r.Err? ==> r.error == ShortRead(pos, st.size)
  {
    var raw :- Read(s, pos, st.size);
    Ok(Decoded(st.render(raw.value), raw.next))
  }

  /**
   * Decodes the value of `pa` at `pos` by its alias type.  TYPE_NONE and
   * TYPE_NUM must not reach here and an alias type without a decoder is
   * unknown: both are configuration errors, reported whatever the bytes.
   * For every other alias type the only failure is a short read.
   */
  function ParseArg(d: Decoder, pa: PointArg, s: seq<byte>, pos: nat): (r: Decoding<string>)
    ensures pa.aliasType.TypeNone? || pa.aliasType.TypeNum? ==> r == Err(MisplacedAlias(pa.aliasType))
    ensures pa.aliasType.Unlisted? ==> r == Err(UnknownAlias(pa.aliasType))
    ensures Decodable(pa.aliasType) && r.Err? ==> r.error.ShortRead?
    ensures r.Ok? ==> pos <= r.value.next <= |s|
    ensures pa.aliasType.TypeBufferT? ==> r == ParseBuffer(d, s, pos)
    ensures pa.aliasType.TypeString? ==> r == ParseString(d, s, pos)
    ensures pa.aliasType.TypeStringArr? ==> r == ParseStringArr(d, s, pos)
    ensures pa.aliasType.TypePointer? ==> r == ParseRegister(d, s, pos)
    ensures pa.aliasType.TypeSigset? ==> r == ParseSigset(s, pos)
    ensures pa.aliasType.TypeStruct? ==> r == ParseStruct(pa.size, s, pos)
    ensures pa.aliasType.TypeIovec? ==> r == ParseIovec(d, s, pos)
    ensures IsFixedLayout(pa.aliasType) ==> r == ParseFixed(d.abi.fixed(pa.aliasType), s, pos)
  {
    match pa.aliasType
    case TypeNone => Err(MisplacedAlias(TypeNone))
    case TypeNum => Err(MisplacedAlias(TypeNum))
    case TypeBufferT => ParseBuffer(d, s, pos)
    case TypeString => ParseString(d, s, pos)
    case TypeStringArr => ParseStringArr(d, s, pos)
    case TypePointer => ParseRegister(d, s, pos)
    case TypeSigset => ParseSigset(s, pos)
    case TypeStruct => ParseStruct(pa.size, s, pos)
    case TypeIovec => ParseIovec(d, s, pos)
    case TypePollfd | TypeTimezone | TypePthreadAttr | TypeTimeval | TypeTimespec | TypeStat
       | TypeStatfs | TypeSigaction | TypeUtsname | TypeSockaddr | TypeRusage | TypeEpollEvent
       | TypeSysinfo | TypeSiginfo | TypeMsghdr | TypeItimerspec | TypeStackT =>
      ParseFixed(d.abi.fixed(pa.aliasType), s, pos)
    case Unlisted(_) => Err(UnknownAlias(pa.aliasType))
  }

  /**
   * Decodes one argument whose register slot `ptr` the caller has read, and
   * appends exactly one display string to it.  A null register gives
   * `(NULL)` and reads nothing.  A pointer-typed argument reads one more
   * register: null gives `(0x0)`; otherwise the pointee is decoded by the
   * same descriptor and shown after `(*0x<addr>)`.  Any other argument is
   * decoded directly.
   */
  function ParseArgByType(d: Decoder, pa: PointArg, ptr: Reg, s: seq<byte>, pos: nat): (r: Decoding<PointArg>)
    ensures ptr.address == 0 ==> r == Ok(Decoded(Appended(pa, "(NULL)"), pos))
    ensures r.Ok? ==>
      && pos <= r.value.next
      && (r.value.next <= |s| || r.value.next == pos)
      && |r.value.value.values| == |pa.values| + 1
      && r.value.value == Appended(pa, r.value.value.values[|pa.values|])
    ensures ptr.address != 0 && pa.argType == TypePointer ==>
      var regSize := d.abi.reg.size;
      if |s| < pos + regSize then r == Err(ShortRead(pos, regSize))
      else
        var target := d.abi.reg.count(s[pos..pos + regSize]);
        if target == 0 then r == Ok(Decoded(Appended(pa, "(0x0)"), pos + regSize))
        else
          var v := ParseArg(d, pa, s, pos + regSize);
          && (v.Err? ==> r == Err(v.error))
          && (v.Ok? ==> r == Ok(Decoded(Appended(pa, "(*0x" + Hex(target) + ")" + v.value.value), v.value.next)))
    ensures ptr.address != 0 && pa.argType != TypePointer ==>
      var v := ParseArg(d, pa, s, pos);
      && (v.Err? ==> r == Err(v.error))
      && (v.Ok? ==> r == Ok(Decoded(Appended(pa, v.value.value), v.value.next)))
  {
    if ptr.address == 0 then Ok(Decoded(Appended(pa, "(NULL)"), pos))
    else if pa.argType == TypePointer then
      var target :- ReadReg(d.abi.reg, s, pos);
      if target.value.address == 0 then Ok(Decoded(Appended(pa, "(0x0)"), target.next))
      else
        var v :- ParseArg(d, pa, s, target.next);
        Ok(Decoded(Appended(pa, "(*0x" + Hex(target.value.address) + ")" + v.value), v.next))
    else
      var v :- ParseArg(d, pa, s, pos);
      Ok(Decoded(Appended(pa, v.value), v.next))
  }
}
