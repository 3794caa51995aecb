/**
 * Properties of the argument decoder that relate several calls: exact
 * consumption (a decode is decided by the bytes it consumed, and a capture
 * cut short inside them is a short read), encode-then-decode round trips for
 * the length-prefixed payloads, renderings that lose nothing, and the
 * one-level bound on pointer indirection.
 */
module ArgDecoderProps {
  import opened Results
  import opened Bytes
  import opened Text
  import opened ArgTypes
  import opened Cursor
  import opened ArgDecoder

  // ---- Exact consumption ------------------------------------------------

  lemma ReadRegOnPrefix(rec: CountedRecord, s: seq<byte>, t: seq<byte>, pos: nat)
    requires IsPrefix(s, t)
    ensures PrefixStable(ReadReg(rec, s, pos), ReadReg(rec, t, pos), |s|)
  {
    ReadOnPrefix(s, t, pos, rec.size);
  }

  lemma ReadCountedOnPrefix(rec: CountedRecord, s: seq<byte>, t: seq<byte>, pos: nat)
    requires IsPrefix(s, t)
    ensures PrefixStable(ReadCounted(rec, s, pos), ReadCounted(rec, t, pos), |s|)
  {
    ReadOnPrefix(s, t, pos, rec.size);
    if pos + rec.size <= |t| {
      ReadOnPrefix(s, t, pos + rec.size, rec.count(t[pos..pos + rec.size]));
    }
  }

  /** The first element's length reaches beyond the shorter capture: a short read there. */
  lemma ReadStringsLengthCut(trim: seq<byte> -> string, s: seq<byte>, t: seq<byte>, pos: nat, count: nat)
    requires IsPrefix(s, t) && pos <= |s| && count > 0
    requires !(ReadUint(t, pos, 4).Ok? && ReadUint(t, pos, 4).value.next <= |s|)
    ensures PrefixStable(ReadStrings(trim, s, pos, count), ReadStrings(trim, t, pos, count), |s|)
  {
    ReadUintOnPrefix(s, t, pos, 4);
  }

  /** The first element's payload reaches beyond the shorter capture: a short read there. */
  lemma ReadStringsPayloadCut(trim: seq<byte> -> string, s: seq<byte>, t: seq<byte>, pos: nat, count: nat)
    requires IsPrefix(s, t) && pos <= |s| && count > 0
    requires ReadUint(t, pos, 4).Ok? && ReadUint(t, pos, 4).value.next <= |s|
    requires var len := ReadUint(t, pos, 4).value;
      !(Read(t, len.next, len.value).Ok? && Read(t, len.next, len.value).value.next <= |s|)
    ensures PrefixStable(ReadStrings(trim, s, pos, count), ReadStrings(trim, t, pos, count), |s|)
  {
    ReadUintOnPrefix(s, t, pos, 4);
    var len := ReadUint(t, pos, 4).value;
    ReadOnPrefix(s, t, len.next, len.value);
  }

  /** One more element in front of what the rest of the array reads as. */
  function Prepend(item: string, r: Decoding<seq<string>>): (p: Decoding<seq<string>>)
    ensures p.Ok? <==> r.Ok?
    ensures p.Ok? ==> p.value.value == [item] + r.value.value && p.value.next == r.value.next
  {
    match r
    case Ok(d) => Ok(Decoded([item] + d.value, d.next))
    case Err(e) => Err(e)
  }

  /** An element whose length and payload read at `pos` is followed by the rest of the array. */
  lemma ReadStringsCons(trim: seq<byte> -> string, x: seq<byte>, pos: nat, count: nat, rest: nat, len: nat,
                        p: seq<byte>, at: nat)
    requires count == rest + 1
    requires ReadUint(x, pos, 4) == Ok(Decoded(len, pos + 4)) && Read(x, pos + 4, len) == Ok(Decoded(p, at))
    ensures ReadStrings(trim, x, pos, count) == Prepend(trim(p), ReadStrings(trim, x, at, rest))
  {
  }

  /** Putting the same element in front keeps the rest's decode stable on a shorter capture. */
  lemma PrependStable(item: string, rs: Decoding<seq<string>>, rt: Decoding<seq<string>>, cut: nat)
    requires PrefixStable(rs, rt, cut)
    ensures PrefixStable(Prepend(item, rs), Prepend(item, rt), cut)
  {
  }

  /** The first element lies within the shorter capture: the rest decides. */
  lemma ReadStringsHeadWithin(trim: seq<byte> -> string, s: seq<byte>, t: seq<byte>, pos: nat, rest: nat,
                              len: nat, at: nat)
    requires IsPrefix(s, t) && pos <= |s|
    requires ReadUint(t, pos, 4) == Ok(Decoded(len, pos + 4)) && pos + 4 + len == at <= |s|
    requires PrefixStable(ReadStrings(trim, s, at, rest), ReadStrings(trim, t, at, rest), |s|)
    ensures PrefixStable(ReadStrings(trim, s, pos, rest + 1), ReadStrings(trim, t, pos, rest + 1), |s|)
  {
    ReadUintOnPrefix(s, t, pos, 4);
    ReadOnPrefix(s, t, pos + 4, len);
    var p := t[pos + 4..at];
    var count := rest + 1;
    ReadStringsCons(trim, s, pos, count, rest, len, p, at);
    ReadStringsCons(trim, t, pos, count, rest, len, p, at);
    PrependStable(trim(p), ReadStrings(trim, s, at, rest), ReadStrings(trim, t, at, rest), |s|);
  }

  /** The string array's elements read the same on a shorter capture as far as it reaches. */
  lemma {:induction false} ReadStringsOnPrefix(trim: seq<byte> -> string, s: seq<byte>, t: seq<byte>, pos: nat, count: nat)
    requires IsPrefix(s, t) && pos <= |s|
    ensures PrefixStable(ReadStrings(trim, s, pos, count), ReadStrings(trim, t, pos, count), |s|)
    decreases count
  {
    if count > 0 {
      var lenT := ReadUint(t, pos, 4);
      if !(lenT.Ok? && lenT.value.next <= |s|) {
        ReadStringsLengthCut(trim, s, t, pos, count);
      } else {
        var payloadT := Read(t, lenT.value.next, lenT.value.value);
        if !(payloadT.Ok? && payloadT.value.next <= |s|) {
          ReadStringsPayloadCut(trim, s, t, pos, count);
        } else {
          var at := payloadT.value.next;
          var rest: nat := count - 1;
          ReadStringsOnPrefix(trim, s, t, at, rest);
          ReadStringsHeadWithin(trim, s, t, pos, rest, lenT.value.value, at);
        }
      }
    }
  }

  lemma ParseStringArrOnPrefix(d: Decoder, s: seq<byte>, t: seq<byte>, pos: nat)
    requires IsPrefix(s, t)
    ensures PrefixStable(ParseStringArr(d, s, pos), ParseStringArr(d, t, pos), |s|)
  {
    var size := d.abi.strArr.size;
    ReadOnPrefix(s, t, pos, size);
    if pos + size <= |s| {
      ReadStringsOnPrefix(d.formats.trim, s, t, pos + size, d.abi.strArr.count(t[pos..pos + size]));
    }
  }

  // Each value decoder, on a shorter capture: decided by the bytes it covers.

  lemma ParseBufferOnPrefix(d: Decoder, s: seq<byte>, t: seq<byte>, pos: nat)
    requires IsPrefix(s, t)
    ensures PrefixStable(ParseBuffer(d, s, pos), ParseBuffer(d, t, pos), |s|)
  {
    ReadCountedOnPrefix(d.abi.str, s, t, pos);
  }

  lemma ParseStringOnPrefix(d: Decoder, s: seq<byte>, t: seq<byte>, pos: nat)
    requires IsPrefix(s, t)
    ensures PrefixStable(ParseString(d, s, pos), ParseString(d, t, pos), |s|)
  {
    ReadCountedOnPrefix(d.abi.str, s, t, pos);
  }

  lemma ParseIovecOnPrefix(d: Decoder, s: seq<byte>, t: seq<byte>, pos: nat)
    requires IsPrefix(s, t)
    ensures PrefixStable(ParseIovec(d, s, pos), ParseIovec(d, t, pos), |s|)
  {
    ReadCountedOnPrefix(d.abi.iovec, s, t, pos);
  }

  lemma ParseRegisterOnPrefix(d: Decoder, s: seq<byte>, t: seq<byte>, pos: nat)
    requires IsPrefix(s, t)
    ensures PrefixStable(ParseRegister(d, s, pos), ParseRegister(d, t, pos), |s|)
  {
    ReadRegOnPrefix(d.abi.reg, s, t, pos);
  }

  lemma ParseSigsetOnPrefix(s: seq<byte>, t: seq<byte>, pos: nat)
    requires IsPrefix(s, t)
    ensures PrefixStable(ParseSigset(s, pos), ParseSigset(t, pos), |s|)
  {
    ReadOnPrefix(s, t, pos, SigsetSize);
  }

  lemma ParseStructOnPrefix(size: nat, s: seq<byte>, t: seq<byte>, pos: nat)
    requires IsPrefix(s, t)
    ensures PrefixStable(ParseStruct(size, s, pos), ParseStruct(size, t, pos), |s|)
  {
    ReadOnPrefix(s, t, pos, size);
  }

  lemma ParseFixedOnPrefix(st: FixedStruct, s: seq<byte>, t: seq<byte>, pos: nat)
    requires IsPrefix(s, t)
    ensures PrefixStable(ParseFixed(st, s, pos), ParseFixed(st, t, pos), |s|)
  {
    ReadOnPrefix(s, t, pos, st.size);
  }

  /**
   * Exact consumption of one argument value: on a shorter capture `s` of the
   * sample `t`, a decode that succeeds gives the same value and cursor on
   * `t`; a decode on `t` that ends within `s` gives the same on `s`; and one
   * that needs bytes beyond `s` fails on `s` with a short read.
   */
  lemma ParseArgOnPrefix(d: Decoder, pa: PointArg, s: seq<byte>, t: seq<byte>, pos: nat)
    requires IsPrefix(s, t)
    ensures PrefixStable(ParseArg(d, pa, s, pos), ParseArg(d, pa, t, pos), |s|)
  {
    match pa.aliasType
    case TypeNone =>
    case TypeNum =>
    case TypeBufferT => ParseBufferOnPrefix(d, s, t, pos);
    case TypeString => ParseStringOnPrefix(d, s, t, pos);
    case TypeStringArr => ParseStringArrOnPrefix(d, s, t, pos);
    case TypePointer => ParseRegisterOnPrefix(d, s, t, pos);
    case TypeSigset => ParseSigsetOnPrefix(s, t, pos);
    case TypeStruct => ParseStructOnPrefix(pa.size, s, t, pos);
    case TypeIovec => ParseIovecOnPrefix(d, s, t, pos);
    case Unlisted(_) =>
    case _ => ParseFixedOnPrefix(d.abi.fixed(pa.aliasType), s, t, pos);
  }

  /**
   * Exact consumption of a whole argument, pointer shell included, for a
   * capture cut at or after the argument's start.
   */
  lemma ParseArgByTypeOnPrefix(d: Decoder, pa: PointArg, ptr: Reg, s: seq<byte>, t: seq<byte>, pos: nat)
    requires IsPrefix(s, t) && pos <= |s|
    ensures PrefixStable(ParseArgByType(d, pa, ptr, s, pos), ParseArgByType(d, pa, ptr, t, pos), |s|)
  {
    if ptr.address != 0 {
      if pa.argType == TypePointer {
        PointerShellOnPrefix(d, pa, ptr, s, t, pos);
      } else {
        ParseArgOnPrefix(d, pa, s, t, pos);
      }
    }
  }

  /** The pointee's decode, shown after `lead` as the argument's one new display string. */
  function Labelled(pa: PointArg, lead: string, v: Decoding<string>): (r: Decoding<PointArg>)
    ensures r.Ok? <==> v.Ok?
    ensures r.Ok? ==> r.value == Decoded(Appended(pa, lead + v.value.value), v.value.next)
  {
    match v
    case Ok(x) => Ok(Decoded(Appended(pa, lead + x.value), x.next))
    case Err(e) => Err(e)
  }

  /** A non-null target register: the argument is the pointee decoded after it, shown after `(*0x<target>)`. */
  lemma PointeeShell(d: Decoder, pa: PointArg, ptr: Reg, x: seq<byte>, pos: nat, target: nat)
    requires ptr.address != 0 && pa.argType == TypePointer
    requires pos + d.abi.reg.size <= |x| && target == d.abi.reg.count(x[pos..pos + d.abi.reg.size]) && target != 0
    ensures ParseArgByType(d, pa, ptr, x, pos) == Labelled(pa, "(*0x" + Hex(target) + ")", ParseArg(d, pa, x, pos + d.abi.reg.size))
  {
  }

  /** Showing the pointee after the same text keeps its decode stable on a shorter capture. */
  lemma LabelledStable(pa: PointArg, lead: string, vs: Decoding<string>, vt: Decoding<string>, cut: nat)
    requires PrefixStable(vs, vt, cut)
    ensures PrefixStable(Labelled(pa, lead, vs), Labelled(pa, lead, vt), cut)
  {
  }

  /** The pointer shell: the target register and then the pointee, both read as far as the capture reaches. */
  lemma PointerShellOnPrefix(d: Decoder, pa: PointArg, ptr: Reg, s: seq<byte>, t: seq<byte>, pos: nat)
    requires IsPrefix(s, t) && pos <= |s|
    requires ptr.address != 0 && pa.argType == TypePointer
    ensures PrefixStable(ParseArgByType(d, pa, ptr, s, pos), ParseArgByType(d, pa, ptr, t, pos), |s|)
  {
    var size := d.abi.reg.size;
    if |s| < pos + size {
      PointerShellConsumes(d, pa, ptr, t, pos);
    } else {
      var target := d.abi.reg.count(s[pos..pos + size]);
      SliceOnPrefix(s, t, pos, pos + size);
      if target == 0 {
        NullTargetShown(d, pa, ptr, s, pos);
        NullTargetShown(d, pa, ptr, t, pos);
      } else {
        PointeeOnPrefix(d, pa, ptr, s, t, pos);
      }
    }
  }

  /** A null target register: `(0x0)`, and the pointee is not read. */
  lemma NullTargetShown(d: Decoder, pa: PointArg, ptr: Reg, x: seq<byte>, pos: nat)
    requires ptr.address != 0 && pa.argType == TypePointer
    requires pos + d.abi.reg.size <= |x| && d.abi.reg.count(x[pos..pos + d.abi.reg.size]) == 0
    ensures ParseArgByType(d, pa, ptr, x, pos) == Ok(Decoded(Appended(pa, "(0x0)"), pos + d.abi.reg.size))
  {
  }

  /** A non-null target within the shorter capture: the pointee decides. */
  lemma PointeeOnPrefix(d: Decoder, pa: PointArg, ptr: Reg, s: seq<byte>, t: seq<byte>, pos: nat)
    requires IsPrefix(s, t) && pos + d.abi.reg.size <= |s|
    requires ptr.address != 0 && pa.argType == TypePointer
    requires d.abi.reg.count(s[pos..pos + d.abi.reg.size]) != 0
    ensures PrefixStable(ParseArgByType(d, pa, ptr, s, pos), ParseArgByType(d, pa, ptr, t, pos), |s|)
  {
    var size := d.abi.reg.size;
    var at := pos + size;
    SliceOnPrefix(s, t, pos, at);
    var target := d.abi.reg.count(s[pos..at]);
    ParseArgOnPrefix(d, pa, s, t, at);
    PointeeShell(d, pa, ptr, s, pos, target);
    PointeeShell(d, pa, ptr, t, pos, target);
    LabelledStable(pa, "(*0x" + Hex(target) + ")", ParseArg(d, pa, s, at), ParseArg(d, pa, t, at), |s|);
  }

  /** The pointer shell always reads the target register. */
  lemma PointerShellConsumes(d: Decoder, pa: PointArg, ptr: Reg, x: seq<byte>, pos: nat)
    requires ptr.address != 0 && pa.argType == TypePointer
    ensures var r := ParseArgByType(d, pa, ptr, x, pos);
      r.Ok? ==> pos + d.abi.reg.size <= r.value.next
  {
    var size := d.abi.reg.size;
    if pos + size <= |x| && d.abi.reg.count(x[pos..pos + size]) != 0 {
      PointeeShell(d, pa, ptr, x, pos, d.abi.reg.count(x[pos..pos + size]));
    }
  }

  // ---- Round trips for length-prefixed payloads --------------------------

  /**
   * A counted record whose count is the payload's length, followed by that
   * payload, is read back as exactly that record and payload.
   */
  lemma ReadCountedAt(rec: CountedRecord, s: seq<byte>, pos: nat, header: seq<byte>, payload: seq<byte>)
    requires |header| == rec.size && rec.count(header) == |payload|
    requires pos + |header| + |payload| <= |s|
    requires s[pos..pos + |header|] == header && s[pos + |header|..pos + |header| + |payload|] == payload
    ensures ReadCounted(rec, s, pos) == Ok(Decoded((header, payload), pos + |header| + |payload|))
  {
  }

  /**
   * A length-prefixed string decodes to its trimmed payload in parentheses,
   * consuming the prefix and the payload, wherever it sits in the sample and
   * whatever follows it.
   */
  lemma ParseStringOfEncoded(d: Decoder, pre: seq<byte>, header: seq<byte>, payload: seq<byte>, rest: seq<byte>)
    requires |header| == d.abi.str.size && d.abi.str.count(header) == |payload|
    ensures ParseString(d, pre + header + payload + rest, |pre|)
         == Ok(Decoded("(" + d.formats.trim(payload) + ")", |pre| + |header| + |payload|))
  {
    var s := pre + header + payload + rest;
    assert s[|pre|..|pre| + |header|] == header;
    assert s[|pre| + |header|..|pre| + |header| + |payload|] == payload;
    ReadCountedAt(d.abi.str, s, |pre|, header, payload);
  }

  /** With a 4-byte little-endian length prefix, a string of length L consumes exactly 4 + L bytes. */
  lemma ParseU32StringOfEncoded(d: Decoder, payload: seq<byte>, rest: seq<byte>)
    requires d.abi.str.size == 4
    requires forall b :: d.abi.str.count(b) == LeValue(b)
    requires |payload| < Pow256(4)
    ensures ParseString(d, LeEncode(|payload|, 4) + payload + rest, 0)
         == Ok(Decoded("(" + d.formats.trim(payload) + ")", 4 + |payload|))
  {
    var header := LeEncode(|payload|, 4);
    LeValueOfEncode(|payload|, 4);
    assert d.abi.str.count(header) == |payload|;
    ParseStringAtStart(d, header, payload, rest);
  }

  /** A length-prefixed string at the start of the sample. */
  lemma ParseStringAtStart(d: Decoder, header: seq<byte>, payload: seq<byte>, rest: seq<byte>)
    requires |header| == d.abi.str.size && d.abi.str.count(header) == |payload|
    ensures ParseString(d, header + payload + rest, 0)
         == Ok(Decoded("(" + d.formats.trim(payload) + ")", |header| + |payload|))
  {
    var none: seq<byte> := [];
    assert none + header == header;
    ParseStringOfEncoded(d, none, header, payload, rest);
  }

  /** Array elements as the producer writes them: each a little-endian u32 length and the bytes. */
  function EncodeStrings(ps: seq<seq<byte>>): (b: seq<byte>)
    requires forall i :: 0 <= i < |ps| ==> |ps[i]| < Pow256(4)
  {
    if |ps| == 0 then [] else LeEncode(|ps[0]|, 4) + ps[0] + EncodeStrings(ps[1..])
  }

  /** Each payload trimmed. */
  function TrimAll(trim: seq<byte> -> string, ps: seq<seq<byte>>): (items: seq<string>)
    ensures |items| == |ps|
  {
    if |ps| == 0 then [] else [trim(ps[0])] + TrimAll(trim, ps[1..])
  }

  /** The size of the encoding: four length bytes and the payload per element. */
  function EncodedSize(ps: seq<seq<byte>>): (n: nat)
    ensures n >= 4 * |ps|
  {
    if |ps| == 0 then 0 else 4 + |ps[0]| + EncodedSize(ps[1..])
  }

  /** The elements `ps` are laid out from `pos` on in `s`, each a length that reads back as its size, then its bytes. */
  predicate StringsAt(s: seq<byte>, pos: nat, ps: seq<seq<byte>>)
    decreases |ps|
  {
    |ps| == 0 ||
      (&& pos + 4 + |ps[0]| <= |s|
       && LeValue(s[pos..pos + 4]) == |ps[0]|
       && s[pos + 4..pos + 4 + |ps[0]|] == ps[0]
       && StringsAt(s, pos + 4 + |ps[0]|, ps[1..]))
  }

  /** Where `e` sits at `pos` in `s`, each slice of `e` is the same slice of `s`, shifted by `pos`. */
  lemma SliceOfPlaced(s: seq<byte>, pos: nat, e: seq<byte>, a: nat, b: nat)
    requires pos + |e| <= |s| && s[pos..pos + |e|] == e && a <= b <= |e|
    ensures s[pos + a..pos + b] == e[a..b]
  {
    forall i | 0 <= i < b - a
      ensures s[pos + a..pos + b][i] == e[a..b][i]
    {
      assert s[pos + a + i] == s[pos..pos + |e|][a + i];
    }
  }

  /** The three parts of a concatenation are its slices. */
  lemma SlicesOfThree(e: seq<byte>, x: seq<byte>, y: seq<byte>, z: seq<byte>)
    requires e == x + y + z
    ensures e[..|x|] == x && e[|x|..|x| + |y|] == y && e[|x| + |y|..] == z
  {
  }

  /** Where `x + y + z` sits at `pos`, so do `x`, `y` and `z`, one after the other. */
  lemma PlacedThree(s: seq<byte>, pos: nat, x: seq<byte>, y: seq<byte>, z: seq<byte>)
    requires pos + |x| + |y| + |z| <= |s| && s[pos..pos + |x| + |y| + |z|] == x + y + z
    ensures s[pos..pos + |x|] == x
    ensures s[pos + |x|..pos + |x| + |y|] == y
    ensures s[pos + |x| + |y|..pos + |x| + |y| + |z|] == z
  {
    var e := x + y + z;
    SlicesOfThree(e, x, y, z);
    SliceOfPlaced(s, pos, e, 0, |x|);
    SliceOfPlaced(s, pos, e, |x|, |x| + |y|);
    SliceOfPlaced(s, pos, e, |x| + |y|, |e|);
    assert e[|x| + |y|..|e|] == e[|x| + |y|..];
  }

  /** Encoded elements placed at `pos` are laid out there element by element, and take `EncodedSize` bytes. */
  lemma {:induction false} EncodedStringsAt(s: seq<byte>, pos: nat, ps: seq<seq<byte>>)
    requires forall i :: 0 <= i < |ps| ==> |ps[i]| < Pow256(4)
    requires pos + |EncodeStrings(ps)| <= |s| && s[pos..pos + |EncodeStrings(ps)|] == EncodeStrings(ps)
    ensures StringsAt(s, pos, ps) && |EncodeStrings(ps)| == EncodedSize(ps)
    decreases |ps|
  {
    if |ps| > 0 {
      var p := ps[0];
      var len := LeEncode(|p|, 4);
      var tail := EncodeStrings(ps[1..]);
      assert EncodeStrings(ps) == len + p + tail;
      PlacedThree(s, pos, len, p, tail);
      LeValueOfEncode(|p|, 4);
      EncodedStringsAt(s, pos + 4 + |p|, ps[1..]);
    }
  }

  /** The first element's length and payload are found at `pos` and the rest read back after them: all of them read back. */
  lemma ReadStringsStep(trim: seq<byte> -> string, s: seq<byte>, pos: nat, ps: seq<seq<byte>>, next: nat)
    requires |ps| > 0 && pos + 4 + |ps[0]| <= |s|
    requires LeValue(s[pos..pos + 4]) == |ps[0]| && s[pos + 4..pos + 4 + |ps[0]|] == ps[0]
    requires ReadStrings(trim, s, pos + 4 + |ps[0]|, |ps| - 1) == Ok(Decoded(TrimAll(trim, ps[1..]), next))
    ensures ReadStrings(trim, s, pos, |ps|) == Ok(Decoded(TrimAll(trim, ps), next))
  {
    var count := |ps|;
    var rest: nat := |ps| - 1;
    var at := pos + 4 + |ps[0]|;
    assert ReadUint(s, pos, 4) == Ok(Decoded(|ps[0]| as nat, pos + 4));
    assert Read(s, pos + 4, |ps[0]|) == Ok(Decoded(ps[0], at));
    ReadStringsCons(trim, s, pos, count, rest, |ps[0]|, ps[0], at);
    assert TrimAll(trim, ps) == [trim(ps[0])] + TrimAll(trim, ps[1..]);
  }

  /** Elements laid out at `pos` read back, in order, as their trimmed payloads, consuming exactly their size. */
  lemma {:induction false} ReadStringsAt(trim: seq<byte> -> string, s: seq<byte>, pos: nat, ps: seq<seq<byte>>)
    returns (next: nat)
    requires StringsAt(s, pos, ps)
    ensures next == pos + EncodedSize(ps)
    ensures ReadStrings(trim, s, pos, |ps|) == Ok(Decoded(TrimAll(trim, ps), next))
    decreases |ps|
  {
    if |ps| == 0 {
      assert TrimAll(trim, ps) == [];
      next := pos;
    } else {
      next := ReadStringsAt(trim, s, pos + 4 + |ps[0]|, ps[1..]);
      ReadStringsStep(trim, s, pos, ps, next);
    }
  }

  /** Encoded elements read back, in order, as their trimmed payloads, wherever they sit and whatever follows. */
  lemma ReadStringsOfEncoded(trim: seq<byte> -> string, pre: seq<byte>, ps: seq<seq<byte>>, rest: seq<byte>)
    requires forall i :: 0 <= i < |ps| ==> |ps[i]| < Pow256(4)
    ensures ReadStrings(trim, pre + EncodeStrings(ps) + rest, |pre|, |ps|)
         == Ok(Decoded(TrimAll(trim, ps), |pre| + |EncodeStrings(ps)|))
  {
    var s := pre + EncodeStrings(ps) + rest;
    assert s[|pre|..|pre| + |EncodeStrings(ps)|] == EncodeStrings(ps);
    EncodedStringsAt(s, |pre|, ps);
    var next := ReadStringsAt(trim, s, |pre|, ps);
  }

  /** A count record followed by elements laid out after it: the array reads back as those elements. */
  lemma ParseStringArrAt(d: Decoder, s: seq<byte>, pos: nat, header: seq<byte>, ps: seq<seq<byte>>)
    returns (next: nat)
    requires |header| == d.abi.strArr.size && d.abi.strArr.count(header) == |ps|
    requires pos + |header| <= |s| && s[pos..pos + |header|] == header
    requires StringsAt(s, pos + |header|, ps)
    ensures next == pos + |header| + EncodedSize(ps)
    ensures ParseStringArr(d, s, pos) == Ok(Decoded("[" + Join(TrimAll(d.formats.trim, ps), ", ") + "]", next))
  {
    var at := pos + |header|;
    var count := |ps|;
    var items := TrimAll(d.formats.trim, ps);
    next := ReadStringsAt(d.formats.trim, s, at, ps);
    assert Read(s, pos, d.abi.strArr.size) == Ok(Decoded(header, at));
    assert ReadStrings(d.formats.trim, s, at, count) == Ok(Decoded(items, next));
  }

  /**
   * A string array whose count record counts the encoded elements decodes to
   * `[` + the trimmed elements joined by `, ` + `]`, consuming exactly the
   * count record and the elements.
   */
  lemma ParseStringArrOfEncoded(d: Decoder, pre: seq<byte>, header: seq<byte>, ps: seq<seq<byte>>, rest: seq<byte>)
    requires forall i :: 0 <= i < |ps| ==> |ps[i]| < Pow256(4)
    requires |header| == d.abi.strArr.size && d.abi.strArr.count(header) == |ps|
    ensures ParseStringArr(d, pre + header + EncodeStrings(ps) + rest, |pre|)
         == Ok(Decoded("[" + Join(TrimAll(d.formats.trim, ps), ", ") + "]", |pre| + |header| + |EncodeStrings(ps)|))
  {
    var e := EncodeStrings(ps);
    var s := pre + header + e + rest;
    var at := |pre| + |header|;
    assert s[|pre|..|pre| + |header|] == header;
    assert s[at..at + |e|] == e;
    EncodedStringsAt(s, at, ps);
    var next := ParseStringArrAt(d, s, |pre|, header, ps);
  }

  // ---- Renderings that lose nothing -------------------------------------

  /** No `0x<hex>` item contains a comma. */
  lemma HexWordsHaveNoComma(ws: seq<nat>)
    ensures forall i :: 0 <= i < |ws| ==> ',' !in HexWords(ws)[i]
  {
    forall i, j | 0 <= i < |ws| && 0 <= j < |HexWords(ws)[i]|
      ensures HexWords(ws)[i][j] != ','
    {
      var item := HexWords(ws)[i];
      if j >= 2 {
        assert item[j] == Hex(ws[i])[j - 2];
        assert DigitValue(item[j]) < 16;
      }
    }
  }

  lemma {:induction false} UnhexWordsOfHexWords(ws: seq<nat>)
    ensures UnhexWords(HexWords(ws)) == ws
    decreases |ws|
  {
    if |ws| > 0 {
      var item := "0x" + Hex(ws[0]);
      assert item[2..] == Hex(ws[0]);
      NumeralRoundTrip(ws[0], 16);
      assert HexWords(ws)[1..] == HexWords(ws[1..]);
      UnhexWordsOfHexWords(ws[1..]);
    }
  }

  /** The signal-set rendering loses nothing: its words can be read back from it. */
  lemma SigsetTextLossless(ws: seq<nat>)
    requires |ws| >= 1
    ensures SigsetTextWords(SigsetText(ws)) == ws
  {
    var inner := Join(HexWords(ws), ",");
    var t := SigsetText(ws);
    assert t[7..|t| - 2] == inner;
    HexWordsHaveNoComma(ws);
    SplitJoin(HexWords(ws), ',');
    UnhexWordsOfHexWords(ws);
  }

  /** A decoded signal set shows exactly the eight words at offsets 0, 4, ..., 28 of its 32 bytes. */
  lemma ParseSigsetLossless(s: seq<byte>, pos: nat)
    requires ParseSigset(s, pos).Ok?
    ensures var ws := SigsetTextWords(ParseSigset(s, pos).value.value);
      |ws| == 8 && forall i :: 0 <= i < 8 ==> ws[i] == LeValue(s[pos + 4 * i..pos + 4 * i + 4])
  {
    var b := s[pos..pos + SigsetSize];
    var ws := Words(b);
    SigsetTextLossless(ws);
    forall i | 0 <= i < 8
      ensures b[4 * i..4 * i + 4] == s[pos + 4 * i..pos + 4 * i + 4]
    {
    }
  }

  /** The `([hex]..)` rendering of an opaque structure gives back its bytes. */
  lemma ParseStructLossless(size: nat, s: seq<byte>, pos: nat)
    requires ParseStruct(size, s, pos).Ok?
    ensures var t := ParseStruct(size, s, pos).value.value;
      UnhexBytes(t[6..|t| - 1]) == s[pos..pos + size]
  {
    var t := ParseStruct(size, s, pos).value.value;
    assert t[6..|t| - 1] == HexBytes(s[pos..pos + size]);
    UnhexOfHexBytes(s[pos..pos + size]);
  }

  // ---- Bounded indirection ------------------------------------------------

  /**
   * Indirection stops at one level: a non-null pointer argument whose alias
   * type is itself a pointer reads one register for the target and one for
   * the pointee, never a third, and shows both addresses.
   */
  lemma PointerDepthIsOne(d: Decoder, pa: PointArg, ptr: Reg, s: seq<byte>, pos: nat)
    requires ptr.address != 0 && pa.argType == TypePointer && pa.aliasType == TypePointer
    requires pos + 2 * d.abi.reg.size <= |s|
    ensures var r := ParseArgByType(d, pa, ptr, s, pos);
      var size := d.abi.reg.size;
      var target := d.abi.reg.count(s[pos..pos + size]);
      var pointee := d.abi.reg.count(s[pos + size..pos + 2 * size]);
      && r.Ok?
      && (target == 0 ==> r.value.next == pos + size && r.value.value.values[|pa.values|] == "(0x0)")
      && (target != 0 ==>
            && r.value.next == pos + 2 * size
            && r.value.value.values[|pa.values|] == "(*0x" + Hex(target) + ")(0x" + Hex(pointee) + ")")
  {
    var size := d.abi.reg.size;
    var target := d.abi.reg.count(s[pos..pos + size]);
    if target == 0 {
      NullTargetShown(d, pa, ptr, s, pos);
    } else {
      var pointee := d.abi.reg.count(s[pos + size..pos + 2 * size]);
      PointerPairShown(d, pa, ptr, s, pos, target, pointee);
      ShowsBoth(pa, ParseArgByType(d, pa, ptr, s, pos), Hex(target), Hex(pointee), pos + 2 * size);
    }
  }

  /** A non-null target that is itself read as a pointer: the target's and the pointee's addresses, in that order. */
  lemma PointerPairShown(d: Decoder, pa: PointArg, ptr: Reg, s: seq<byte>, pos: nat, target: nat, pointee: nat)
    requires ptr.address != 0 && pa.argType == TypePointer && pa.aliasType == TypePointer
    requires pos + 2 * d.abi.reg.size <= |s|
    requires target == d.abi.reg.count(s[pos..pos + d.abi.reg.size]) && target != 0
    requires pointee == d.abi.reg.count(s[pos + d.abi.reg.size..pos + 2 * d.abi.reg.size])
    ensures ParseArgByType(d, pa, ptr, s, pos)
         == Ok(Decoded(Appended(pa, "(*0x" + Hex(target) + ")" + ("(0x" + Hex(pointee) + ")")), pos + 2 * d.abi.reg.size))
  {
    var size := d.abi.reg.size;
    var at := pos + size;
    PointeeShell(d, pa, ptr, s, pos, target);
    PointeeRegisterShown(d, pa, s, at, pos + 2 * size, pointee);
  }

  /** A pointer-aliased pointee is the next register, shown as `(0x<address>)`. */
  lemma PointeeRegisterShown(d: Decoder, pa: PointArg, x: seq<byte>, pos: nat, next: nat, value: nat)
    requires pa.aliasType == TypePointer
    requires next == pos + d.abi.reg.size <= |x| && value == d.abi.reg.count(x[pos..next])
    ensures ParseArg(d, pa, x, pos) == Ok(Decoded("(0x" + Hex(value) + ")", next))
  {
  }

  /** The pointer shell followed by the pointee register's rendering is the argument's new display string. */
  lemma ShowsBoth(pa: PointArg, r: Decoding<PointArg>, a: string, b: string, next: nat)
    requires r == Ok(Decoded(Appended(pa, "(*0x" + a + ")" + ("(0x" + b + ")")), next))
    ensures r.Ok? && r.value.next == next && r.value.value.values[|pa.values|] == "(*0x" + a + ")(0x" + b + ")"
  {
    assert "(*0x" + a + ")" + ("(0x" + b + ")") == "(*0x" + a + ")(0x" + b + ")";
  }
}
