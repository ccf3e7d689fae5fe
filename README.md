# SNSS session files, modelled in Dafny

This project models the parser of the `snss` Rust crate. The crate reads the
SNSS files a Chromium browser writes to save its sessions and tabs.

An SNSS file has three parts:

- the ASCII tag `"SNSS"`;
- a little-endian `i32` version;
- a stream of records, each a little-endian `u16` length followed by that many
  bytes of body.

A body starts with a one-byte command id. Commands 1 and 6 carry a navigation
entry (a *tab*). Every other command keeps its bytes verbatim. A tab is a fixed
sequence of fields:

- a skipped 4-byte header;
- `id` and `index`;
- the url, in UTF-8;
- the title, in UTF-16LE, whose prefix counts code units;
- the opaque `state`;
- the `transition` word;
- the `post` flag;
- the referrer url and the reference policy;
- the original request url;
- the `user_agent` flag;
- the rest of the record, which is discarded.

Every url, title and state field is length-prefixed and padded to a multiple
of four bytes. The transition word is decoded on demand into a kind (its low
byte) and seven qualifier flags (bits of its top byte).

The parsers are total functions over byte sequences. Each returns
`Ok(value, rest)` or `Fail`, so the input cursor is threaded as a value.
There are eight modules:

- `Wire`: the integer readers and `take`.
- `Utf8` and `Utf16`: the text decoders, and encoders that are their exact
  inverses. They follow section 4 of RFC 3629 and section 2.2 of RFC 2781.
- `Fields`: the padded fields.
- `Transition`: `PageTransition`, `kind()` and `qualifiers()`.
- `TabRecord`: `parse_tab`.
- `Framing`: the two parser-library combinators `length_and_then` and
  `repeat`. They are generic in the parser applied to each record body.
- `SnssFile`: `parse_command`, `parse_snss` and `parse`.

Each parser has a partner. The readers have the writers they invert. A parsed
field or tab has a *layout* (an image of the bytes it consumed, padding and
discarded bytes included) that reads back as the same value. A record stream
has `Frame`, a cut of the stream by its length prefixes that is defined
independently of the parser.

Two behaviours of the code are worth stating outright:

- A file must be consumed to the end. The record loop stops at the first
  record that does not parse, and `parse` then rejects the leftover. So even a
  single trailing byte after the last record is rejected
  (`SnssFile.ParseRejectsTrailingByte`).
- Five of the seven qualifiers are true when their bit is clear: homepage,
  chain_start, redirect_chain_end, client_redirect and server_redirect
  (src/lib.rs:112-116). Only back_forward and address_bar are true when their
  bit is set.

## Model

| member | source | states |
|---|---|---|
| Wire.Take | src/lib.rs:194 | `take(n)` succeeds exactly when `n` bytes remain; it returns those `n` bytes and the input after them |
| Wire.ReadU8 | src/lib.rs:178 | `le_u8` succeeds exactly when a byte remains, returns it, and advances by one |
| Wire.ReadU16 | src/lib.rs:170 | `le_u16` succeeds exactly when two bytes remain; the value is `b0 + 256*b1`, and re-encoding it gives back the two bytes consumed |
| Wire.ReadU16OfBytes | src/lib.rs:170 | reading a `u16` from its two little-endian bytes gives it back and leaves exactly what followed |
| Wire.ReadU32 | src/lib.rs:218 | `le_u32` succeeds exactly when four bytes remain; re-encoding the value gives back the four bytes consumed |
| Wire.ReadU32OfBytes | src/lib.rs:218 | reading a `u32` from its four little-endian bytes gives it back and leaves what followed |
| Wire.AsI32 | src/lib.rs:169 | a `u32` read as an `i32` keeps values below 2^31 and subtracts 2^32 from the others (two's complement) |
| Wire.ReadI32 | src/lib.rs:169 | `le_i32` succeeds exactly when four bytes remain; the value is the two's-complement reading, and its encoding is the four bytes consumed |
| Wire.ReadI32OfBytes | src/lib.rs:169 | reading an `i32` from its encoding gives it back and leaves what followed |
| Utf8.DecodeEncode | src/lib.rs:199 | `String::from_utf8` accepts the UTF-8 encoding of every string and returns that string |
| Utf8.EncodeDecode | src/lib.rs:199 | whatever bytes `String::from_utf8` accepts are exactly the encoding of the string it returns |
| Utf16.UnitsOfBytes | src/lib.rs:205-208 | pairing little-endian bytes into code units (`chunks_exact(2)`, `u16::from_le_bytes`) inverts writing the units |
| Utf16.BytesOfUnits | src/lib.rs:205-208 | every even-length byte string is the little-endian bytes of the units read from it |
| Utf16.DecodeEncode | src/lib.rs:209 | `String::from_utf16` accepts the UTF-16 encoding of every string and returns that string |
| Utf16.EncodeDecode | src/lib.rs:209 | whatever units `String::from_utf16` accepts are exactly the encoding of the string it returns |
| Fields.RoundUp4 | src/lib.rs:199 | `next_multiple_of(4)` gives the least multiple of four at or above the length |
| Fields.PaddedBody | src/lib.rs:199 | `take(roundup4(len)).and_then(take(len))` succeeds exactly when `roundup4(len)` bytes remain; it keeps the first `len` bytes and skips the padding |
| Fields.LengthPrefixed | src/lib.rs:214-216 | a byte-counted field succeeds exactly when its prefix and padded length fit; its value is the `len` bytes after the prefix |
| Fields.LengthPrefixedOfWire | src/lib.rs:214-216 | a byte-counted field laid out with any padding reads back as its value and leaves exactly what followed |
| Fields.LengthPrefixedLayout | src/lib.rs:214-216 | every byte-counted field that reads is such a layout: prefix, value, padding |
| Fields.TitleBytes | src/lib.rs:203-204 | the title prefix counts code units: the field holds `2*count` bytes of value and takes `4 + roundup4(2*count)` bytes |
| Fields.TitleBytesOfWire | src/lib.rs:203-204 | a unit-counted field laid out with any padding reads back as its bytes and leaves what followed |
| Fields.TitleBytesLayout | src/lib.rs:203-204 | every unit-counted field that reads is such a layout |
| Fields.Utf8FieldSpec | src/lib.rs:198-200 | a url field reads exactly when its bytes are well-formed UTF-8, and its text encodes back to those bytes |
| Fields.Utf8FieldOfWire | src/lib.rs:198-200 | a url field laid out as padded UTF-8 reads back as the decoded text |
| Fields.Utf8FieldLayout | src/lib.rs:198-200 | every url field that reads is a padded, well-formed UTF-8 layout of its text |
| Fields.TitleFieldSpec | src/lib.rs:203-211 | a title reads exactly when its code units are well-formed UTF-16, and its text encodes back to the bytes read |
| Fields.TitleFieldOfWire | src/lib.rs:203-211 | a title laid out as padded UTF-16LE reads back as the decoded text |
| Fields.TitleFieldLayout | src/lib.rs:203-211 | every title that reads is a padded, well-formed UTF-16LE layout of its text |
| Fields.NextMultipleOf4Wrapping | src/lib.rs:199 | the `u32` rounding equals the unbounded one up to 0xFFFF_FFFC and wraps to 0 above it |
| Fields.PaddedBodyWrapHarmless | src/lib.rs:199 | on any input shorter than 2^32 bytes, the padded read with wrapping rounding behaves exactly as the unbounded one |
| Fields.TitleWrapBytes | src/lib.rs:203-204 | with a title count of 0x8000_0001, the wrapped byte length reads two bytes where the unbounded rule fails |
| Fields.TitleWrapAccepts | src/lib.rs:203 | the title as written, with `clen * 2` wrapping, reads "A" from a field whose declared length is absent; the corrected field rejects it |
| Fields.TitleAgree | src/lib.rs:203-204 | below 2^31 code units the title's byte length does not wrap, so on record-sized input the title read as written (`Fields.TitleBytesAsWritten`) equals the corrected one |
| Transition.Code | src/lib.rs:121-146 | the discriminants of the eleven kinds are 0..10 |
| Transition.Kind | src/lib.rs:90-106 | `kind()` is `Ok` exactly when the low byte is at most 10, with the kind of that discriminant, and otherwise `Err` carrying the low byte |
| Transition.KindExact | src/lib.rs:90-106 | `kind()` yields kind `k` if and only if the low byte is `k`'s discriminant |
| Transition.QualifierBits | src/lib.rs:108-118 | the bits a set of qualifiers stands for lie within the seven qualifier bits |
| Transition.Qualifiers | src/lib.rs:108-118 | the seven qualifier bits of the word are exactly the bits its qualifiers stand for: two set when true, five clear when true |
| Transition.QualifiersExact | src/lib.rs:108-118 | `qualifiers()` yields `q` if and only if the seven qualifier bits are those of `q` (two set when present, five when absent), whatever the other bits |
| Transition.ProjectionsOfWord | src/lib.rs:86-118 | a word built from a kind and a set of qualifiers projects back to both |
| Transition.RestoredReload | src/tests/mod.rs:38-50 | kind Reload with back_forward and address_bar false and the other five true holds exactly when the low byte is 8 and none of the seven qualifier bits is set |
| TabRecord.ParseTabOfImage | src/lib.rs:191-235 | every well-formed tab layout reads as the tab it means, whatever its skipped header, padding and trailing bytes; all input is consumed |
| TabRecord.ParseTabLayout | src/lib.rs:191-235 | every record that reads as a tab is a well-formed layout whose meaning is that tab |
| TabRecord.LayoutOfSteps | src/lib.rs:193-233 | a successful run of the twelve steps determines the layout it read |
| TabRecord.ParseTabIgnoresTrailer | src/lib.rs:232 | bytes appended after `user_agent` do not change the tab read |
| TabRecord.SerializeTrailer | src/lib.rs:232 | extending the discarded tail of a layout extends its bytes |
| TabRecord.ZeroPadded | src/lib.rs:214-216 | a zero-padded byte-counted field is a valid layout of its data |
| TabRecord.Utf8Text | src/lib.rs:198-200 | the UTF-8 layout of a text decodes to that text |
| TabRecord.Utf16Text | src/lib.rs:203-211 | the UTF-16LE layout of a text, counted in code units, decodes to that text |
| TabRecord.CanonicalImage | src/lib.rs:68-84 | every tab whose fields fit their `u32` prefixes has a well-formed layout that means it |
| TabRecord.ParseTabRoundTrip | src/lib.rs:191-235 | every such tab, written out, reads back unchanged |
| Framing.LengthAndThen | src/lib.rs:170 | a record reads exactly when its `u16` length fits the input and the inner parser accepts the body; reading resumes after the body, whatever the inner parser left unread |
| Framing.LengthAndThenReads | src/lib.rs:170 | the record reader equals `le_u16`, then `take` of that many bytes, then the inner parser on the bytes taken |
| Framing.RepeatRecords | src/lib.rs:170 | `repeat(0.., …)` never fails and never consumes more than its input |
| Framing.FrameCons | src/lib.rs:170 | cutting a stream that starts with a whole record gives that record's body, then the cut of the rest |
| Framing.FrameFirst | src/lib.rs:170 | a nonempty stream that cuts into records starts with its first record whole |
| Framing.FrameOfUnframe | src/lib.rs:170 | cutting a stream of laid-out records gives back their bodies |
| Framing.UnframeOfFrame | src/lib.rs:170 | a stream that cuts into records is exactly those records laid out, and its length is the sum of `2 + L` |
| Framing.FrameAppend | src/lib.rs:170 | appending to laid-out records: the cut is those records, then the cut of what was appended |
| Framing.FrameCutRecord | src/lib.rs:170 | a nonempty proper prefix of a record is not a stream of records |
| Framing.RepeatRecordsFramed | src/lib.rs:170 | the records consume the whole stream exactly when it cuts into records that all parse, and item i is then what body i alone parses to |
| SnssFile.Tag | src/lib.rs:168 | a literal tag is accepted exactly when the input starts with it, and is consumed |
| SnssFile.ParseCommand | src/lib.rs:176-189 | `parse_command` fails only on an empty body or an unreadable tab; ids 1 and 6, and only they, give a tab, read from the bytes after the id; every other id keeps all bytes after it |
| SnssFile.ParseCommandOther | src/lib.rs:182-184 | a command whose id is neither 1 nor 6 reads as `Other` of exactly the bytes after the id |
| SnssFile.ParseCommandTab | src/lib.rs:180-181 | a tab command reads as the tab its body reads as |
| SnssFile.ParseCommandOfImage | src/lib.rs:180-181 | a tab command whose body is a well-formed tab layout reads as the tab that layout means |
| SnssFile.ParseSnss | src/lib.rs:166-174 | `parse_snss` succeeds exactly when the input starts with `"SNSS"` and a four-byte version |
| SnssFile.ParseFramed | src/lib.rs:43-48 | `parse` accepts a file exactly when it is the tag, a version, and a stream that cuts into records that all parse as commands; the version is the `i32` in bytes 4..8, and command i is what record i alone parses to |
| SnssFile.ParseOfLayout | src/lib.rs:166-174 | the tag, a version and laid-out command records parse to that version and those commands, in order |
| SnssFile.ParseHeaderOnly | src/lib.rs:166-174 | a file that is only the header parses to no commands |
| SnssFile.ParseRejectsUnframed | src/lib.rs:43-48 | a file whose stream does not cut into records is rejected |
| SnssFile.ParseRejectsCutRecord | src/lib.rs:43-48 | a file cut off inside a record is rejected |
| SnssFile.ParseRejectsTrailingByte | src/lib.rs:43-48 | a single byte after the last record is rejected |
| SnssFile.ParseRecordsSize | src/lib.rs:43-48 | in a file that parses, the records account for every byte after the header: the sum of `2 + L` over them is the stream's length |
| SnssFile.ParseSession | src/tests/mod.rs:3-52 | version 3 with a 24-byte command 14 and two tab commands 6 parses to exactly those three commands, in order, with the tabs their layouts mean |

## Left out

- Errors carry no offset or message, and the `trace` and `StrContext` labels
  are not modelled. There is one failure outcome. `parse` returns `None`
  where the crate returns its `Error`.
- File I/O is not modelled: the input is a byte sequence.
- Debug builds panic on `u32` overflow; the model has only the release-build
  wrapping, in `Fields.NextMultipleOf4Wrapping` and
  `Fields.TitleBytesAsWritten`.
- Lengths in the model are unbounded naturals. The corrected title field
  doubles the code-unit count without wrapping (see Findings).
- The crate's test reads a binary session file that is not part of this
  model. Its concrete urls, titles and ids are therefore not restated. Its
  shape is proved in `SnssFile.ParseSession`, and its transition checks in
  `Transition.RestoredReload`.
- `TabRecord.ParseTab`, `SnssFile.Parse`, `Fields.Utf8Field` and
  `Fields.TitleField` carry no `ensures` of their own. Their contracts are
  the lemmas beside them: `ParseTabOfImage`, `ParseTabLayout`, `ParseFramed`,
  `Utf8FieldSpec` and `TitleFieldSpec`.
- `Utf8.Decode`, `Utf16.Units` and `Utf16.Decode` carry no `ensures` that
  characterise them. Their contracts are the round trips `Utf8.DecodeEncode`,
  `Utf8.EncodeDecode`, `Utf16.UnitsOfBytes`, `Utf16.BytesOfUnits`,
  `Utf16.DecodeEncode` and `Utf16.EncodeDecode`.
- `Fields.PaddedBodyAsWritten`, `Fields.TitleBytesAsWritten` and
  `Fields.TitleFieldAsWritten` (the release-build arithmetic) carry no
  `ensures`. Their contracts are `Fields.PaddedBodyWrapHarmless`,
  `Fields.TitleAgree`, `Fields.TitleWrapBytes` and `Fields.TitleWrapAccepts`.
- `Debug`, `Clone` and `Display` derivations are not modelled. They do not
  affect parsing.

## Findings

| source | as written | input that shows it | evidently intended | confidence | as-written member | corrected member |
|---|---|---|---|---|---|---|
| src/lib.rs:203 | `clen * 2` is computed in `u32` and wraps in a release build, so a title count of 0x8000_0001 gives a byte length of 2 | title prefix `01 00 00 80` followed by `41 00 00 00`: the field reads the title "A" although 0x1_0000_0002 bytes were declared | the field holds `2 * clen` bytes; a count whose byte length does not fit the input is rejected | not executed | Fields.TitleWrapAccepts | Fields.TitleFieldLayout |
