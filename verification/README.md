# stackplz event decoding and trace filter, modelled in Dafny

This project models two parts of stackplz, an eBPF-based tracer for Android and Linux processes.

**Event decoding (`user/event/event_context.go`).** A raw perf sample is read strictly left to right.
- `ParseContext` reads a fixed 56-byte header: timestamp, event id, host and namespace thread/process ids, uid, command name, argument count and padding.
- `ParseArgByType` and `ParseArg` decode one traced argument into a display string. First comes the one-level pointer shell: `(NULL)`, `(0x0)` or `(*0x<addr>)`. Then the argument's alias type picks exactly one structural decoder: a length-prefixed buffer or string, a string array, a register, a signal set, an opaque structure, an iovec with its trailing buffer, or a fixed-layout C structure.
- `ParsePadding` consumes the alignment footer `{Index, PartRawSize}` at the end of the raw sample, which records the size of the data before it (`size_before`), and skips the trailing padding that realigns the sample to 4 bytes.
- `GetUUID` names the thread `"<pid>_<tid>"`.

**Trace filter (`src/common/filtering.h`).** `should_trace` decides in the kernel whether an event of the current task is traced:
- the tracer's own process is excluded;
- then one of three filter modes matches the event's uid, pid and tid against the single `common_filter` map entry.

## How the model is built

- A sample is a `seq<byte>`, where `byte` is an integer newtype from 0 to 255, and every decoder is a pure function from `(sample, cursor)` to `Result<Decoded(value, next), DecodeError>`.
- A read past the end of the sample is `ShortRead(at, wanted)`. The source panics there; the model returns an error value instead.
- The two configuration errors of the dispatch are `MisplacedAlias` (TYPE_NONE or TYPE_NUM) and `UnknownAlias` (the `default` branch). The source panics on both.
- Integers are little-endian and unsigned (`Bytes.LeValue`).
- Go's `%d` and `%x` are written out as numerals (`Text.Numeral`), with inverses for the round-trip proofs. So are `%x` of a byte slice, `strings.Join` and `strings.Split`.
- Record layouts defined outside the event file are parameters of the decoder, and so is each structure's `Format()` rendering. These include `Arg_reg`, `Arg_str`, `Arg_str_arr`, `Arg_Iovec` and the fixed C structures.
- The `DumpHex` and `Color` options are booleans.
- The BPF helpers are inputs. The `common_filter` map lookup is an `Option`.

Modules:
- `Results`: `Option` and `Result`.
- `Bytes`: little-endian values.
- `Text`: Go's numerals, hex, join and split.
- `ArgTypes`: `config.TYPE_*`.
- `Cursor`: reads and prefix stability.
- `EventHeader`: header, footer and thread id.
- `ArgDecoder`: the argument decoders.
- `ArgDecoderProps`: exact consumption and lossless renderings.
- `Filtering`: `should_trace`.

## Model

| member | source | states |
|---|---|---|
| Cursor.ReadUint | user/event/event_context.go:93-95 | a little-endian read of n bytes succeeds exactly when n bytes remain; it yields their little-endian value and advances by n; otherwise it is a short read at the cursor |
| EventHeader.ParseContext | user/event/event_context.go:91-124 | the header parse succeeds iff the sample holds 56 bytes and consumes exactly 56; each field is the little-endian value of its slice at offsets 0,8,12,...,49 in the order ts, eventid, host_tid, host_pid, tid, pid, uid, comm, argnum, padding; a too-short sample fails at the field it runs out in |
| EventHeader.HeaderRoundTrip | user/event/event_context.go:91-124 | any well-formed header, encoded and followed by anything, parses back to itself and consumes exactly 56 bytes |
| EventHeader.ParsedHeaderEncodes | user/event/event_context.go:91-124 | a parsed header fits its field widths and re-encodes to exactly the 56 bytes it was read from, so parsing loses nothing |
| EventHeader.PaddingSize | user/event/event_context.go:78 | the uint32 padding size lies in 1..4 and brings footer (5 bytes) plus raw size to a multiple of 4 |
| EventHeader.ParsePadding | user/event/event_context.go:64-84 | the footer needs 5 bytes; its bytes 1..4 become the event's part_raw_size and its index byte is ignored; 1-3 padding bytes are consumed when the padding size is not 4 and none otherwise; the skip realigns to 4, the header is unchanged, and a short footer or short padding is a short read |
| EventHeader.SkipIsLeastAlignment | user/event/event_context.go:78-84 | the bytes skipped are (4 - (raw+5) mod 4) mod 4, the least count that realigns the stream; the uint32 wrap-around of the sum never changes it |
| EventHeader.GetUuid | user/event/event_context.go:56-58 | the thread id `"<pid>_<tid>"` splits on `_` back into the header's pid and tid |
| EventHeader.UuidIdentifiesThread | user/event/event_context.go:56-58 | two headers with the same thread id have the same pid and tid |
| ArgDecoder.ReadReg | user/event/event_context.go:142-145 | a register slot is read whole or is a short read at the cursor |
| ArgDecoder.ReadCounted | user/event/event_context.go:183-190 | a counted record is read, then exactly the number of payload bytes it counts; either read running out is a short read at its own offset |
| ArgDecoder.ParseBuffer | user/event/event_context.go:167-181 | a buffer consumes its length record and payload; it is rendered by HexFormat(Color) when DumpHex is set and by Format otherwise |
| ArgDecoder.ParseString | user/event/event_context.go:182-191 | a string consumes its length record and exactly that many bytes; it is shown as `(` + trimmed payload + `)` |
| ArgDecoder.ParseIovec | user/event/event_context.go:308-318 | an iovec consumes its record and the buffer length it carries; it is rendered from both |
| ArgDecoder.ReadStrings | user/event/event_context.go:198-208 | reading count elements yields count strings and consumes at least 4 bytes per element; every failure is a short read |
| ArgDecoder.ParseStringArr | user/event/event_context.go:192-209 | a string array consumes its count record and its elements, each prefixed by a u32 length; zero elements give `[]`; a too-short record is a short read at the cursor |
| ArgDecoder.ParseRegister | user/event/event_context.go:210-217 | a pointer alias reads one register and shows `(0x<hex address>)` |
| ArgDecoder.Words | user/event/event_context.go:219-222 | a signal set's 32 bytes read as words, word i being the little-endian value of bytes 4i..4i+3 |
| ArgDecoder.HexWords | user/event/event_context.go:223-226 | each word is rendered as `0x` followed by its hex digits |
| ArgDecoder.ParseSigset | user/event/event_context.go:218-227 | a signal set consumes exactly 32 bytes and shows `(sigs=[...])` of its eight words; fewer bytes give a short read |
| ArgDecoder.ParseStruct | user/event/event_context.go:234-239 | an opaque structure consumes exactly its declared size and shows `([hex]..)` with two digits per byte |
| ArgDecoder.ParseFixed | user/event/event_context.go:240-307 | a fixed-layout structure consumes exactly its size and shows its own rendering of those bytes; the fixed-layout arms after the iovec arm (:319-355) follow the same pattern |
| ArgDecoder.ParseArg | user/event/event_context.go:160-358 | each alias type goes to exactly one decoder; TYPE_NONE and TYPE_NUM are configuration errors, as is an alias type without a decoder, whatever the bytes; every other alias type fails only by a short read; a success never reads past the sample |
| ArgDecoder.ParseArgByType | user/event/event_context.go:132-159 | a null register appends `(NULL)` and reads nothing; a pointer-typed argument reads one more register, which gives `(0x0)` when null and `(*0x<addr>)` + the pointee's decoding otherwise; any other argument appends its decoding; exactly one string is appended and nothing else about the argument changes |
| ArgDecoderProps.ReadStringsOnPrefix | user/event/event_context.go:198-208 | the array elements are read the same on a shorter capture of the sample, as far as it reaches, and fail there with a short read beyond it |
| ArgDecoderProps.ParseStringArrOnPrefix | user/event/event_context.go:192-209 | a string array consumes exactly its bytes: truncating the sample after them changes nothing, truncating inside them gives a short read |
| ArgDecoderProps.ParseArgOnPrefix | user/event/event_context.go:160-358 | every structural decoder consumes exactly the bytes its layout or embedded lengths dictate: a success on a shorter capture is the same on the full sample, a success on the full sample that ends inside the capture is the same on it, and one ending beyond it is a short read there |
| ArgDecoderProps.PointerShellOnPrefix | user/event/event_context.go:140-154 | the pointer shell, target register and pointee included, consumes exactly the bytes it reads |
| ArgDecoderProps.ParseArgByTypeOnPrefix | user/event/event_context.go:132-159 | a whole argument, pointer shell included, consumes exactly its bytes when the capture is cut at or after its start |
| ArgDecoderProps.ParseStringOfEncoded | user/event/event_context.go:182-191 | a length record followed by that many bytes decodes, wherever it sits and whatever follows, to the trimmed payload in parentheses, consuming record and payload only |
| ArgDecoderProps.ParseU32StringOfEncoded | user/event/event_context.go:182-191 | with a 4-byte little-endian length, a string of length L followed by anything decodes to its trimmed payload and consumes 4 + L bytes |
| ArgDecoderProps.ReadStringsOfEncoded | user/event/event_context.go:198-208 | elements written as u32 length plus bytes read back in order as their trimmed payloads, consuming exactly their encoding |
| ArgDecoderProps.ParseStringArrOfEncoded | user/event/event_context.go:192-209 | an array whose record counts its encoded elements decodes to `[` + trimmed elements joined by `, ` + `]`, consuming record and elements exactly |
| ArgDecoderProps.SigsetTextLossless | user/event/event_context.go:223-227 | the `(sigs=[0x..,...])` rendering can be split on commas and read back to the words it shows |
| ArgDecoderProps.ParseSigsetLossless | user/event/event_context.go:218-227 | a decoded signal set shows exactly eight words, word i being the little-endian u32 at offset 4i |
| ArgDecoderProps.ParseStructLossless | user/event/event_context.go:234-239 | the hex rendering of an opaque structure gives back exactly its bytes |
| ArgDecoderProps.PointerDepthIsOne | user/event/event_context.go:140-154 | a pointer to a pointer reads two registers and never a third: `(0x0)` for a null target, else `(*0x<target>)(0x<pointee>)` |
| Text.NumeralRoundTrip | user/event/event_context.go:57 | Go's `%d`/`%x` numeral of a number reads back as that number |
| Text.UnhexOfHexBytes | user/event/event_context.go:239 | Go's `%x` of a byte slice reads back as those bytes |
| Text.SplitJoin | user/event/event_context.go:223-227 | splitting on a one-character separator undoes `strings.Join` for one or more items, none of which contains it |
| Filtering.CurrentHostIds | src/common/filtering.h:14-17 | host uid, pid and tid are 32-bit values; the uid is the low half of the uid/gid word (that word is its high half times 2^32 plus the uid); pid and tid put back together give the pid/tgid word |
| Filtering.ShouldTrace | src/common/filtering.h:8-107 | the result is 0 or 1; it is 0 for the tracer's own host pid, 0 without a filter entry, and 0 for any other mode; in UID mode it is 1 iff the uid matches and neither the pid nor the tid is blacklisted; in PID mode it is 1 iff the pid matches and the tid is not blacklisted; in PID_TID mode it is 1 iff both pid and tid match |
| Filtering.ShouldTraceMeansTraced | src/common/filtering.h:22-107 | the decision is 1 exactly when an independent statement of the traced events holds, and 0 otherwise |
| Filtering.ShouldTraceIgnoresTask | src/common/filtering.h:14-17 | the host ids the function computes never change the decision; only the event context does |
| Filtering.PidTidNarrowsPid | src/common/filtering.h:79-104 | for the same filter entry, an event traced in PID_TID mode is also traced in PID mode, unless its tid is the blacklisted one |

## Left out

- Struct layouts and renderings: the byte layouts of `Arg_reg`, `Arg_str`, `Arg_str_arr`, `Arg_Iovec` and the fixed C structures, and their `Format()`/`HexFormat()` methods, are defined outside `event_context.go`. They are parameters of `ArgDecoder.Decoder`. So are the inline renderings of `pollfd` (user/event/event_context.go:233) and `utsname` (user/event/event_context.go:289-295).
- `util.B2STrim` and `B2S`: uninterpreted string renderings, given as a parameter.
- Panics: every `panic` on a failed `binary.Read`, and on TYPE_NONE, TYPE_NUM or an unknown alias type, is an error value. The model does not distinguish a malformed record from a short read, because `binary.Read` on a byte buffer fails only when bytes run out.
- Logging and sleeping: the logging, hex dump and three-second sleep before the TYPE_STAT panic (user/event/event_context.go:267-268) have no effect on the decoded value.
- Construction: the event constructors and `Clone` (user/event/event_context.go:28-44, 126-130), `Decode`, `String` and `GetEventId` only build, copy or print events.
- Buffer handling: the `bytes.Buffer` is a sample plus a cursor.
- Caller: the argument loop and the read of each argument's register slot are not part of this model. That caller passes the slot to `ParseArgByType`.
- ArgDecoder.ParseArg: the source's `ptr` parameter is never used by `ParseArg`, so the model drops it.
- ArgDecoder.ParseArgByType: when the cursor starts beyond the end of the sample and nothing is read, the cursor may stay past the end. So the bound is `next <= |s| || next == pos` rather than `next <= |s|`. The same applies to ArgDecoder.ReadStrings with a count of zero.
- ArgDecoderProps.ParseArgByTypeOnPrefix: stated for captures cut at or after the argument's start. A `(NULL)` argument reads nothing and succeeds at any cursor, including one beyond the cut.
- EventHeader.ParsePadding: the debug print at user/event/event_context.go:85-87 is commented out in the source and not modelled.
- Integer widths: the header fields are read as unbounded naturals of their byte width, so no truncation arises. The padding arithmetic is done in uint32 explicitly.
- Filter constants: the numeric values of `UID_MODE`, `PID_MODE` and `PID_TID_MODE`, and the field widths of `config_entry_t` and `common_filter_t`, are defined in headers that are not part of this model. The modes are a datatype, and unmatched values are `OtherMode`.
- BPF helpers: `bpf_get_current_uid_gid` and `bpf_get_current_pid_tgid` are an input record, and `bpf_map_lookup_elem` on `common_filter` is an `Option`. The kernel environment is not modelled.
- Dead filter code: the commented-out code after the mode branches (src/common/filtering.h:109-129) is unreachable, so it is not modelled.
- Thread-name blacklist: the commented-out check (src/common/filtering.h:72-75, 89-92) is not modelled.
