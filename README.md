# celeste_map decoder and projector, in Dafny

This project models the core of `celeste_map`, a Rust library that reads
Celeste's binary map files (`.bin`). The library has three parts:

- **The tree decoder** (`src/element.rs`). A byte buffer holds a header (two
  skipped strings and a string table), then one root element. Each element
  is a name index, a u8 attribute count, that many tagged attribute values
  (tags 0–7; tag 7 is run-length text), an i16 child count and that many
  children, in pre-order. Strings are prefixed by a 7-bit continuation
  varint. The result is a generic `Element` tree whose attributes sit in a
  map.
- **The projector** (`src/map.rs`). One pass over the root's children
  builds a typed `Map` of `Level`s, `Filler` rectangles and a `Style`.
- **The session parser** (`src/lib.rs`). Seven `key: value` lines of the
  game's debug session text, matched in a fixed key order.

The modules follow that layout:

- `Wire`: fixed-width integers and Rust's `as` casts.
- `Utf8`: `String::from_utf8`.
- `Buf`: the byte reads, the varint, strings, and a `Cursor` class over the
  buffer.
- `Elements`: the tree decoder, as read functions plus the cursor methods
  proved equal to them.
- `ElementLaws`: properties of the decoder.
- `ElementCodec`: an encoder of whole trees, against which the element read
  is proved.
- `Maps`: the projector.
- `Session`: the session lines.
- `Pipeline`: decode and projection put together.

Every panic of the Rust code (`unwrap`, `todo!`, out-of-range indexing, a
`Bytes` read past the end) is an explicit error value:

- `DecodeError` for the decoder;
- `ProjectError` for the projector;
- `None` for the session parser.

Reads are functions from a byte sequence and a position to a value and the
next position. The cursor methods mirror the Rust loops and are proved to
agree with those functions.

Where the code departs from the documented format, the model follows the
code:

- A negative child count reads no children (`(0..n)` is empty); it is not
  rejected.
- An odd tag-7 byte count B reads B/2 pairs (truncated) and leaves the
  odd byte unread.
- A negative string length, or a negative table count, is cast to a huge
  `usize`, so `Vec::with_capacity` fails. This is `CapacityOverflow`.
- Tag 4 is the one exception. element.rs:38 reads it with `get_f32`,
  which is big-endian in the `bytes` crate, while every other number in
  the format is little-endian. The decoder here reads it little-endian,
  as evidently intended (see Findings and "## Left out").
  `ElementLaws.FloatTagByteOrder` states how the two reads relate.
- In `Map::try_from`, every "levels" and "Filler" child is converted when
  the loop meets it. A bad level under an early "levels" node therefore
  fails the whole map, even when a later "levels" node replaces it.

## Model

| member | source | states |
|---|---|---|
| Wire.U32Of | src/map.rs:64-65 | `as u32`: the result is congruent to the i32 modulo 2^32, and equals it exactly when the i32 is non-negative |
| Wire.UsizeOf | src/element.rs:26 | `as usize` on a 64-bit target: the value or the value plus 2^64, below 2^64; a negative i16 lands at 2^64 − 0x8000 or above |
| Wire.TruncDiv | src/element.rs:42 | Rust's integer `/`: the remainder a − q·b has the sign of the dividend and is smaller than the divisor in magnitude, which is division truncated toward zero |
| Wire.Signed16Range | src/element.rs:26 | the i16 of a 16-bit pattern: the pattern itself or the pattern − 2^16, negative exactly when the top bit is set |
| Wire.Signed32Range | src/element.rs:37 | the i32 of a 32-bit pattern: the pattern itself or the pattern − 2^32, negative exactly when the top bit is set |
| Wire.LeBytes16 | src/element.rs:26 | two bytes that `get_i16_le` reads back as the same i16 |
| Wire.LeBytesU32 | src/element.rs:38 | four bytes whose little-endian value is the u32 |
| Wire.LeBytes32 | src/element.rs:37 | four bytes that `get_i32_le` reads back as the same i32 |
| Wire.LeBytes16Of | src/element.rs:26 | two bytes read as an i16 and written back are the same bytes |
| Wire.LeBytesU32Of | src/element.rs:38 | four bytes read as a u32 and written back are the same bytes |
| Wire.LeBytes32Of | src/element.rs:37 | four bytes read as an i32 and written back are the same bytes |
| Utf8.DecodeScalar | src/element.rs:119 | one UTF-8 scalar value at the head of the bytes, taking 1 to 4 of them |
| Utf8.Decode | src/element.rs:119 | `String::from_utf8`: a text decoded has at most as many chars as bytes |
| Utf8.EncodeChar | src/element.rs:119 | the UTF-8 encoding of one char is 1 to 4 bytes |
| Utf8.Encode | src/element.rs:119 | an encoded text has at least one byte per char |
| Utf8.DecodeScalarEncodeChar | src/element.rs:119 | an encoded char is decoded back from the front of any byte sequence |
| Utf8.EncodeCharDecodeScalar | src/element.rs:119 | the bytes a decoded scalar took are exactly its encoding |
| Utf8.DecodeEncode | src/element.rs:119 | every text survives encoding then decoding |
| Utf8.EncodeDecode | src/element.rs:119 | bytes that decode are the encoding of their text, so the validity check accepts one byte sequence per text |
| Utf8.Latin1 | src/element.rs:46 | `u8 as char`: one char per byte, each with the byte's code point |
| Utf8.DecodeAscii | src/element.rs:119 | ASCII bytes decode to one char per byte with the same code point |
| Buf.ReadU8 | src/element.rs:28 | `get_u8`: succeeds exactly when a byte is left, with that byte and the next position; otherwise `BufferUnderrun` |
| Buf.ReadI16Le | src/element.rs:26 | `get_i16_le`: succeeds exactly when two bytes are left, taking two; otherwise `BufferUnderrun` |
| Buf.ReadI32Le | src/element.rs:37 | `get_i32_le`: succeeds exactly when four bytes are left, taking four; otherwise `BufferUnderrun` |
| Buf.ReadF32BitsAsWritten | src/element.rs:38 | `get_f32` as written: succeeds exactly when four bytes are left, taking four; otherwise `BufferUnderrun` |
| Buf.ReadF32BitsLe | src/element.rs:38 | the corrected `get_f32_le`: succeeds exactly when four bytes are left, taking four; otherwise `BufferUnderrun` |
| Buf.FixedReadsInvert | src/element.rs:26-38 | the i16, i32 and little-endian f32 reads give the values whose little-endian bytes are the bytes read; `get_f32` as written gives the value of those bytes reversed |
| Buf.VarIntLoop | src/element.rs:128-141 | one turn of the `get_var_int` loop: a success consumes at least one byte and stays in the buffer |
| Buf.ReadVarInt | src/element.rs:123-144 | `get_var_int`: a success consumes at least one byte, and a first byte below 0x80 is the value itself |
| Buf.VarIntLoopSpec | src/element.rs:128-141 | the loop from any turn k: the value is the accumulated groups plus the remaining groups shifted by 7k; it fails too-long exactly when a fifth byte continues and underruns exactly when the data ends first |
| Buf.ReadVarIntSpec | src/element.rs:123-144 | a success consumes 1 to 5 bytes, all but the last with the continuation bit set, and the value is the i32 of the sum of the 7-bit groups, the k-th shifted by 7k, modulo 2^32. `VarIntTooLong` exactly when five continuing bytes are there, `BufferUnderrun` exactly when the data ends while bytes continue, and no other error |
| Buf.EncodeVarInt | src/element.rs:123-144 | the continuation encoding of a natural number has at least one byte |
| Buf.VarIntRoundTrip | src/element.rs:123-144 | every N in [0, 2^31 − 1], encoded then read, gives N back and takes at most five bytes |
| Buf.ReadString | src/element.rs:113-120 | `get_string`: a success consumes at least the length byte and stays in the buffer |
| Buf.ReadText | src/element.rs:115-119 | the L bytes after the length: success exactly when L ≥ 0, L bytes remain and they are UTF-8, and then the decoded text and the position L bytes on; a negative L is `CapacityOverflow`, too few bytes is `BufferUnderrun`, and bytes that are not UTF-8 are `InvalidUtf8` |
| Buf.ReadStringOf | src/element.rs:113-120 | a varint L followed by L bytes of UTF-8 is read as their text, ending after them |
| Buf.StringRoundTrip | src/element.rs:113-120 | a length-prefixed string is read back as itself and consumes exactly its prefix and its bytes |
| Buf.F32ByteOrderCounterexample | src/element.rs:38 | the little-endian bytes of 1.0 read as 0x0000803F with `get_f32` but as 0x3F800000 with the little-endian read |
| Buf.Cursor.constructor | src/element.rs:14 | a cursor over the bytes at position 0 |
| Buf.Cursor.GetU8 | src/element.rs:28 | `get_u8`: the result and the new position are those of the read function, or its error |
| Buf.Cursor.GetI16Le | src/element.rs:26 | `get_i16_le`, agreeing with its read function |
| Buf.Cursor.GetI32Le | src/element.rs:37 | `get_i32_le`, agreeing with its read function |
| Buf.Cursor.GetF32Le | src/element.rs:38 | the tag-4 read in the corrected byte order (not the big-endian `get_f32` as written), agreeing with `ReadF32BitsLe` |
| Buf.Cursor.GetVarInt | src/element.rs:123-144 | the `get_var_int` loop, one byte per turn, agreeing with `ReadVarInt` |
| Buf.Cursor.GetString | src/element.rs:113-120 | the `get_string` loop, one byte pushed per turn, agreeing with `ReadString` |
| Elements.Value.AsBool | src/element.rs:81-86 | Some exactly for a Bool, and then its payload |
| Elements.Value.AsInt | src/element.rs:87-92 | Some exactly for an Int, and then its payload |
| Elements.Value.AsFloat | src/element.rs:93-98 | Some exactly for a Float, and then its payload |
| Elements.Value.AsStr | src/element.rs:99-104 | Some exactly for a String, and then its payload |
| Elements.Lookup | src/element.rs:26 | a table index succeeds exactly when 0 ≤ i < table length, with the entry at i; otherwise `IndexOutOfRange`, negative indices included |
| Elements.Repeat | src/element.rs:47 | `repeat`: n copies of the char |
| Elements.PairCount | src/element.rs:42-43 | the pair count of tag 7: B/2 for B ≥ 0, none for a negative B |
| Elements.ReadRuns | src/element.rs:43-49 | the pairs of tag 7: a success consumes exactly two bytes per pair |
| Elements.ReadValue | src/element.rs:33-53 | a value consumes at least one byte, and any tag above 7 is `UnknownValueTag`; tag 4 uses the corrected byte order |
| Elements.ReadAttribute | src/element.rs:31-54 | one key/value pair takes at least four bytes |
| Elements.ReadAttributes | src/element.rs:29-56 | n pairs in read order: exactly n of them, at least four bytes each |
| Elements.ReadAttributesInto | src/element.rs:29-56 | n pairs inserted into a map in read order, at least four bytes each |
| Elements.ReadAttributeMap | src/element.rs:28-56 | the attribute map of an element, at least four bytes per attribute |
| Elements.ReadElement | src/element.rs:25-68 | one element takes at least five bytes and stays in the buffer |
| Elements.ReadElementTail | src/element.rs:58-67 | the child count and the children take at least two bytes |
| Elements.ReadChildren | src/element.rs:58-61 | n children in document order: exactly n, at least five bytes each |
| Elements.ReadStrings | src/element.rs:20 | n strings in order: exactly n, at least one byte each |
| Elements.ReadTable | src/element.rs:19-20 | the string table takes its two-byte count and at least a byte per entry |
| Elements.ReadHeader | src/element.rs:16-20 | a header takes at least the two string prefixes, the two-byte count and one byte per table entry |
| Elements.Decode | src/element.rs:12-23 | a document that decodes has at least nine bytes: two string prefixes, the table count and the five bytes of the root |
| Elements.ReadRunsStep | src/element.rs:43-49 | one pair is its byte's char repeated, in front of the rest; too few bytes is `BufferUnderrun` |
| Elements.GetValue | src/element.rs:33-53 | the `match value_type` on the cursor agrees with `ReadValue` |
| Elements.GetRuns | src/element.rs:41-51 | the tag-7 loop agrees with `ReadRuns` |
| Elements.GetAttribute | src/element.rs:31-54 | one pair on the cursor agrees with `ReadAttribute` |
| Elements.GetAttributes | src/element.rs:28-56 | the attribute loop agrees with `ReadAttributeMap` |
| Elements.GetChildren | src/element.rs:58-61 | the child loop agrees with `ReadChildren` |
| Elements.Read | src/element.rs:25-68 | `Element::read` on the cursor agrees with `ReadElement` |
| Elements.GetStrings | src/element.rs:20 | the table loop agrees with `ReadStrings` |
| Elements.GetTable | src/element.rs:19-20 | the count and the table agree with `ReadTable` |
| Elements.FromBytes | src/element.rs:12-23 | `Element::from_file` on the bytes gives what `Decode` gives |
| ElementLaws.AttributesIntoPairs | src/element.rs:29-56 | inserting while reading is reading all the pairs and then inserting them in order, with the same error when a pair fails |
| ElementLaws.AttributeMapOfPairs | src/element.rs:28-56 | the attribute map is the read pairs inserted into the empty map in order |
| ElementLaws.InsertKeys | src/element.rs:29-56 | the keys after inserting are the keys before plus the pairs' keys |
| ElementLaws.InsertLastWins | src/element.rs:29-56 | a key holds the value of its last pair (last write wins) |
| ElementLaws.InsertUntouched | src/element.rs:29-56 | a key no pair has keeps its value |
| ElementLaws.InsertSize | src/element.rs:29-56 | inserting adds at most one key per pair |
| ElementLaws.AttributeMapProperties | src/element.rs:28-56 | a read map has at most n keys (n the u8 count); each key holds the value of its last pair, and every key comes from some pair |
| ElementLaws.Expand | src/element.rs:41-51 | the text of (repeat, byte) pairs has the sum of the repeats as its length |
| ElementLaws.ReadRunsText | src/element.rs:43-49 | reading k pairs fails exactly when fewer than 2k bytes remain, and otherwise is the expansion of those bytes |
| ElementLaws.RunTag | src/element.rs:41-51 | tag 7 succeeds exactly when the 2·(B/2) pair bytes are there (none for B < 0), and is then their expansion, ending after them |
| ElementLaws.RunTagExample | src/element.rs:41-51 | the pairs (3,'1'), (2,'0') give "11100" |
| ElementLaws.RunTagOddCount | src/element.rs:42 | a byte count of 3 reads one pair and leaves the odd byte |
| ElementLaws.RunTagEmpty | src/element.rs:41-51 | a byte count of 0 gives "" |
| ElementLaws.ChildCount | src/element.rs:58-61 | an element has max(0, N) children for the i16 count N, and a count ≤ 0 reads none and ends right after the count |
| ElementLaws.StringAt | src/element.rs:40 | an encoded string is read back by `get_string` |
| ElementLaws.ValueRoundTrip | src/element.rs:33-40 | every writable value, written with its tag, reads back as itself and consumes exactly its payload |
| ElementLaws.BoolTag | src/element.rs:34 | tag 0 takes one byte, and any nonzero byte is true |
| ElementLaws.BoolRoundTrip | src/element.rs:34 | tag 0 takes one byte and gives back the Bool |
| ElementLaws.IntRoundTrip | src/element.rs:37 | tag 3 takes four little-endian bytes and gives back the Int |
| ElementLaws.FloatRoundTrip | src/element.rs:38 | the corrected tag 4 takes four little-endian bytes and gives back the bits written |
| ElementLaws.FloatTagByteOrder | src/element.rs:38 | the decoder's tag 4 and `get_f32` as written fail alike; where they succeed they end at the same position, and the as-written bits are the decoder's bits with their four bytes reversed |
| ElementLaws.NarrowIntTags | src/element.rs:35-36 | tag 1 zero-extends one byte and tag 2 sign-extends an i16 into an Int |
| ElementLaws.IndexTag | src/element.rs:39 | tag 5 gives the table entry at the index, in two bytes |
| ElementLaws.InlineTag | src/element.rs:40 | tag 6 gives the length-prefixed text |
| ElementLaws.TableAndInlineStrings | src/element.rs:39-40 | a table string and the same text inline are the same `Value::String` |
| ElementLaws.StringsRoundTrip | src/element.rs:20 | n encoded strings read back in order and end just after them |
| ElementLaws.TableRoundTrip | src/element.rs:19-20 | the count and the strings read back as the table, so entry i is the i-th string and the length is the count |
| ElementLaws.HeaderRoundTrip | src/element.rs:16-20 | whatever the two skipped strings hold, the header reads back as the table written and ends after it |
| ElementLaws.SkippedStrings | src/element.rs:16-17 | the two leading strings are read and passed over |
| ElementCodec.ResolveAttrs | src/element.rs:29-56 | the written pairs with keys looked up, one per pair |
| ElementCodec.ResolveAll | src/element.rs:58-61 | the written children resolved, one per child |
| ElementCodec.I16At | src/element.rs:26 | `get_i16_le` reads back an encoded i16 |
| ElementCodec.U8At | src/element.rs:28 | `get_u8` reads back a byte |
| ElementCodec.AttrRoundTrip | src/element.rs:31-54 | an encoded attribute reads back as its looked-up key and its value |
| ElementCodec.AttrsRoundTrip | src/element.rs:29-56 | encoded attributes read back in written order and end after them |
| ElementCodec.AttrMapRoundTrip | src/element.rs:28-56 | encoded attributes give the map that inserting them in order builds |
| ElementCodec.NodeRoundTrip | src/element.rs:25-68 | every encodable tree reads back as itself, with names and keys looked up, and the read ends just after its encoding |
| ElementCodec.NodesRoundTrip | src/element.rs:58-61 | sibling trees read back in document order |
| ElementCodec.DecodeRoundTrip | src/element.rs:12-23 | a header followed by a tree decodes to that tree, whatever follows it |
| Maps.IntAttr | src/map.rs:62-65 | an Int attribute is found exactly when present as an Int; otherwise `MissingAttribute` or `WrongVariant` |
| Maps.StrAttr | src/map.rs:66-72 | a String attribute likewise |
| Maps.StripLvlPrefix | src/map.rs:75-77 | a name starting with "lvl_" is "lvl_" plus the result; any other name is kept |
| Maps.StripAfterPrefix | src/map.rs:75-77 | exactly one "lvl_" is removed |
| Maps.StripExamples | src/map.rs:75-77 | "lvl_a-02" gives "a-02", "lvl_lvl_b" gives "lvl_b"; "a-02" and "lvl" are kept |
| Maps.LastNamed | src/map.rs:82-95 | the index of the last child with the name, or None exactly when there is none |
| Maps.InnerText | src/map.rs:84-93 | the `innerText` of a grid child: fails exactly when it is present but not a String; Some exactly when it is a String |
| Maps.ScanGrids | src/map.rs:79-95 | the grid loop: a grid is found only when some child has its name |
| Maps.ScanGridsMeaning | src/map.rs:79-95 | the grid loop succeeds exactly when every grid child's `innerText` is usable; solids and bg are then taken from the last child of each name |
| Maps.ScanGridsFailure | src/map.rs:82-95 | a failure part-way is the result of the whole loop |
| Maps.ScanGridsError | src/map.rs:84-93 | the grid loop can fail only with `WrongVariant("innerText")` |
| Maps.LevelOf | src/map.rs:60-106 | `Level::from`: a level that converts has its six attributes and usable grids, and x, y and c are its Int attributes |
| Maps.LevelOfMeaning | src/map.rs:60-106 | a level succeeds exactly when its six attributes have the right variants and its grids are usable; the fields are those attributes, width and height as u32, the name stripped once, and "" for a missing grid; the error is that of the first of x, y, width, height, name and c to fail, and otherwise the grid error |
| Maps.LevelFrom | src/map.rs:60-106 | `Level::from` with its grid loop gives what `LevelOf` gives |
| Maps.FillerOf | src/map.rs:117-126 | a filler succeeds exactly when x, y, w and h are Ints; w and h are their u32 |
| Maps.StyleOf | src/map.rs:132-136 | a style has no fields, whatever the element holds |
| Maps.Collect | src/map.rs:19-33 | `.map(..).collect()`: a success has one item per child |
| Maps.CollectMeaning | src/map.rs:19-33 | converting children succeeds exactly when each succeeds, keeping length and order; otherwise it is the first error |
| Maps.CollectLevels | src/map.rs:19-25 | the loop over a "levels" node gives what `Collect(LevelOf, ..)` gives |
| Maps.CollectFailure | src/map.rs:19-33 | a failure part-way is the result of the whole conversion |
| Maps.Scan | src/map.rs:17-37 | the root loop: levels, filler or a style are found only when some child has that name |
| Maps.ScanSucceeds | src/map.rs:17-37 | the root loop succeeds exactly when every "levels" and "Filler" child converts |
| Maps.ScanFirstError | src/map.rs:17-37 | a failing loop reports the first child that does not convert |
| Maps.ScanLastLevels | src/map.rs:18-25 | the levels found are those of the last "levels" child, or none |
| Maps.ScanLastFiller | src/map.rs:26-33 | the filler found is that of the last "Filler" child, or none |
| Maps.ScanLastStyle | src/map.rs:34-35 | a style is found exactly when some child is "Style" |
| Maps.ScanLast | src/map.rs:17-37 | the three accumulators hold what the last child of each name gave |
| Maps.ScanFailure | src/map.rs:17-37 | a failure part-way is the result of the whole loop |
| Maps.Project | src/map.rs:12-44 | `Map::try_from`: a map is built only when the root has a "levels" child and a "Style" child |
| Maps.ProjectMeaning | src/map.rs:12-44 | the map succeeds exactly when every child converts and "levels" and "Style" children exist; levels come from the last "levels" child, filler from the last "Filler" child or is empty |
| Maps.ProjectMissingNodes | src/map.rs:39-43 | with no "levels" child the error is `MissingNode("levels")`, else with no "Style" child it is `MissingNode("Style")` |
| Maps.TryFrom | src/map.rs:12-44 | the loop of `Map::try_from` gives what `Project` gives |
| Session.FindSep | src/lib.rs:66 | the first ": " at or after a position, or None exactly when there is none |
| Session.SplitOnce | src/lib.rs:66 | `split_once(": ")`: None exactly when there is no separator; otherwise the line is key + ": " + value, with no separator inside the key |
| Session.KeyValue | src/lib.rs:65-71 | Some exactly when the text before the first separator is the key; then the line is key + ": " + value |
| Session.KeyValueOfLine | src/lib.rs:65-71 | a line key + ": " + v gives back v, even when v holds separators |
| Session.KeyValueExamples | src/lib.rs:65-71 | "Area" gives None, "Side: A" for key Area gives None, and "Area: a: b" gives "a: b" |
| Session.Field | src/lib.rs:29-35 | the i-th line matched against a key, None when the lines run out |
| Session.Render | src/lib.rs:28-35 | seven session lines, one per key |
| Session.KeysArePlain | src/lib.rs:29-35 | none of the seven keys holds the separator |
| Session.ParseSession | src/lib.rs:28-47 | a parsed session comes from at least seven lines, and each of its text fields is its line with the key and ": " in front |
| Session.ParseSessionSucceeds | src/lib.rs:28-47 | the parse succeeds exactly when the first seven lines carry the keys in order and both coordinates parse |
| Session.ParseSessionLines | src/lib.rs:28-47 | a session read is the rendering of its first seven lines, whatever follows them |
| Session.FieldOfLine | src/lib.rs:29-35 | a line key + ": " + v at index i is read as v |
| Session.RenderRoundTrip | src/lib.rs:28-47 | a rendered session is read back as itself, with extra lines ignored |
| Session.Default | src/lib.rs:51-62 | side "'?'", tp "''", empty area, level and map_bin, zero coordinates |
| Session.DefaultRoundTrip | src/lib.rs:51-62 | the default session's own lines read back as it |
| Pipeline.MinimalRootElement | src/element.rs:25-68 | the written root tree resolves to the element with an empty "levels" and a "Style" child |
| Pipeline.MinimalDocument | src/map.rs:12-44 | a document with only an empty "levels" and a "Style" child decodes to a map with no levels and no filler |
| Pipeline.StylelessDocument | src/map.rs:39-43 | without the "Style" child it fails with `MissingNode("Style")` |

## Left out

- Reading the file in `Element::from_file` (src/element.rs:13): the decoder starts from the bytes.
- The HTTP fetch of `SessionData::get` (src/lib.rs:23-26) and the splitting of the text by `str::lines`: the parser starts from the lines.
- The f32 parses of X and Y (src/lib.rs:42-43): a parameter `parse` of the session parser, with the float type a type parameter.
- The IEEE-754 meaning of tag 4 (src/element.rs:38): a Float carries its 32 raw bits.
- Elements.ReadValue: tag 4 reads its bits little-endian (`ReadF32BitsLe`), the corrected behaviour of the Finding below, not the big-endian `get_f32` of src/element.rs:38. So `GetValue`, `ReadElement`, `Decode`, `FromBytes` and the round trips over them describe the corrected program for float attributes. `ElementLaws.FloatTagByteOrder` gives the as-written bits: the same four bytes reversed.
- `src/main.rs` (windowing, drawing, its own copy of the session parser) is not part of this model.
- `debug_assert_eq!` on the names "level" and "rect" (src/map.rs:61, 119): a release build is modelled, where these checks are off.
- HashMap iteration order (src/element.rs:7): attributes are a Dafny `map` built by insertion in read order.
- Allocation failure and stack overflow are not modelled. A negative length cast to `usize` is the one capacity failure kept (`CapacityOverflow`).
- `usize` is taken to be 64 bits wide.
- Panics are modelled as error values. The `Error = ()` of `Map::try_from` is never produced by the code (it panics instead); the model's `ProjectError` names the panic.
- Elements.Value.AsFloat: returns the 32 bits of the float, not an `f32`.
- Buf.ReadString, Elements.ReadValue, Elements.ReadElement: their own contracts state bounds only; what they read is stated by the round-trip lemmas (`StringRoundTrip`, `ValueRoundTrip`, `NodeRoundTrip`) and the characterisations (`ReadText`, `RunTag`, `IndexTag`, `ChildCount`).
- ElementCodec.NodeRoundTrip: covers trees whose strings are short enough for the varint prefix and whose values are written with the widest tag of each variant (3 for Int, 6 for String); tags 1, 2 and 5 are covered by `NarrowIntTags` and `IndexTag` on their own.

## Findings

| source | as written | input that shows it | evidently intended | confidence | as-written member | corrected member |
|---|---|---|---|---|---|---|
| src/element.rs:38 | tag 4 reads its four bytes with `get_f32`, which the `bytes` crate defines as big-endian | bytes 00 00 80 3F, the little-endian f32 1.0, read as bits 0x0000803F instead of 0x3F800000 | `get_f32_le`, like every other number of the format | medium, not executed | Buf.ReadF32BitsAsWritten (with Buf.F32ByteOrderCounterexample) | Buf.ReadF32BitsLe (with ElementLaws.FloatRoundTrip) |
