# NUT frame decoding, modelled in Dafny

This project models how a frame record of the NUT container format is
decoded, as `Frame.read` and `Frame.readMetaData` in
`src/main/java/net/bramp/ffmpeg/nut/Frame.java` do it. A frame starts with
a one-byte frame code. The code selects an entry of the main header's frame
code table, which gives default flags, stream, size, elision prefix,
timestamp step and reserved count. The decoder then:

- refuses code `'N'` (78) and codes whose table flags carry the invalid bit;
- toggles the table flags with explicitly coded flags when the table says so;
- reads the optional fields in their fixed order: stream id, coded
  timestamp, size high part, match-time delta, header index, reserved count,
  reserved values, checksum;
- rebuilds the presentation timestamp from a truncated, wrap-around coded
  value against the stream's last timestamp, and writes it back to the stream;
- settles the payload size, forcing elision entry 0 for frames over 4096 bytes;
- with the side-data flag, decodes two metadata blocks and counts their bytes
  against the size;
- builds the payload from the elision prefix followed by raw bytes of the input.

A metadata block is a count, then that many entries. Each entry is a name, a
signed type tag and a value chosen by the tag: text, key/value, signed
integer, raw timestamp, fraction, or the tag itself. The entries go into a
map in which a later entry overwrites an earlier entry of the same name.

Modules:

- `Results` (`results.dfy`): the error kinds, `Result`, `Outcome`, and
  `Parsed` (a value with the token position after it).
- `NutStream` (`reader.dfy`): the primitive reader `NutDataInputStream`,
  modelled as a cursor over already-decoded tokens. The token kinds are
  unsigned varint, signed varint, length-prefixed byte string, fixed 32-bit
  integer, and raw payload byte. Each token has its encoded byte width, so
  the reader's byte offset is the sum of the widths consumed (`Span`).
- `Timestamps` (`timestamps.dfy`): the timestamp arithmetic of lines
  121-126, as pure functions with lemmas. `x & mask` with `mask = 2^S - 1`
  is the non-negative remainder modulo `2^S`, which is Dafny's `%`.
- `MetaData` (`metadata.dfy`): the metadata block as specification
  functions over tokens. It also has an entry encoder that is proved to be
  their inverse, and the last-write-wins map.
- `NutFrame` (`frame.dfy`):
  - one specification function per phase of `read`, and `Decode` for the
    whole frame;
  - class `Stream` (its `lastPts` is updated in place);
  - class `Frame`, whose methods update `flags`, `stream`, `pts`, `data`,
    `sideData` and `metaData` and move the reader. Each method is proved
    equal to its specification function.
- `FrameProperties` (`frame_props.dfy`): what `Decode` guarantees for all
  inputs.

The frame code table, the elision table, the header version and the
streams are inputs. The only I/O is the token sequence.

The timestamp follows the code. For `S = 8`, `last_pts = 1000` and coded
value 130, lines 122-124 give `mask = 255` and `delta = 873`, then
`(130 - 873) & 255 = 25`, so the timestamp is 898. The window the code
produces is `[last - mask/2, last - mask/2 + mask]`, here `[873, 1128]`;
coded value 104 gives 1128 (`Timestamps.UnwrapExample`,
`FrameProperties.DecodeExample`).

## Model

| member | source | states |
|---|---|---|
| NutStream.SpanSplit | src/main/java/net/bramp/ffmpeg/nut/Frame.java:171-174 | The byte count between two reader positions is the sum of the byte counts over any intermediate position; this is what makes `offset() - pos` the bytes of the two metadata blocks. |
| NutStream.UnsignedAt | src/main/java/net/bramp/ffmpeg/nut/Frame.java:94 | An unsigned read succeeds exactly when the next token is an unsigned integer, and then yields it and advances by one token. |
| NutStream.SignedAt | src/main/java/net/bramp/ffmpeg/nut/Frame.java:46 | A signed read succeeds exactly when the next token is a signed integer, and then yields it and advances by one token. |
| NutStream.BytesAt | src/main/java/net/bramp/ffmpeg/nut/Frame.java:45 | A byte-string read succeeds exactly when the next token is a byte string, and then yields its bytes and advances by one token. |
| NutStream.Fixed32At | src/main/java/net/bramp/ffmpeg/nut/Frame.java:156 | A fixed 32-bit read succeeds exactly when the next token is one, and then yields it and advances by one token. |
| NutStream.RawAt | src/main/java/net/bramp/ffmpeg/nut/Frame.java:186 | Reading `n` raw bytes succeeds exactly when `n` raw tokens follow; the result has length `n`, holds those bytes in order, and ends `n` tokens later. |
| NutStream.Reader.Offset | src/main/java/net/bramp/ffmpeg/nut/Frame.java:171-174 | The reader's byte offset (`in.offset()`): the summed widths of the tokens consumed so far. |
| NutStream.Reader.ReadUnsigned | src/main/java/net/bramp/ffmpeg/nut/Frame.java:94 | The reader method agrees with `UnsignedAt`: same success condition and value, the cursor moves past the token, and a failure moves nothing. |
| NutStream.Reader.ReadSigned | src/main/java/net/bramp/ffmpeg/nut/Frame.java:46 | The reader method agrees with `SignedAt`; a failure moves nothing. |
| NutStream.Reader.ReadBytes | src/main/java/net/bramp/ffmpeg/nut/Frame.java:45 | The reader method agrees with `BytesAt`; a failure moves nothing. |
| NutStream.Reader.ReadFixed32 | src/main/java/net/bramp/ffmpeg/nut/Frame.java:156 | The reader method agrees with `Fixed32At`; a failure moves nothing. |
| NutStream.Reader.ReadFully | src/main/java/net/bramp/ffmpeg/nut/Frame.java:186 | Fills `a[off..off+len]` from the input: it succeeds exactly when `RawAt` does, and then those array cells are the bytes `RawAt` yields and the cursor is `len` further on; cells outside the range are unchanged. |
| Timestamps.Unwrap | src/main/java/net/bramp/ffmpeg/nut/Frame.java:122-124 | The truncated case, `((coded - delta) & mask) + delta` with `delta = last - mask/2`; its meaning is given by `UnwrapCongruent`, `UnwrapInWindow`, `UnwrapUnique` and `UnwrapNearest`. |
| Timestamps.CodedPts | src/main/java/net/bramp/ffmpeg/nut/Frame.java:121-126 | The timestamp of a coded value: unwrapped below `2^S`, `coded - 2^S` from `2^S` on (`FullPtsIgnoresLast`). |
| Timestamps.UnwrapCongruent | src/main/java/net/bramp/ffmpeg/nut/Frame.java:121-124 | A coded value below `2^S` is the rebuilt timestamp modulo `2^S`. |
| Timestamps.UnwrapInWindow | src/main/java/net/bramp/ffmpeg/nut/Frame.java:122-124 | The rebuilt timestamp lies in `[last - mask/2, last - mask/2 + mask]`. |
| Timestamps.UnwrapUnique | src/main/java/net/bramp/ffmpeg/nut/Frame.java:121-124 | An integer is the rebuilt timestamp if and only if it is congruent to the coded value modulo `2^S` and lies in that window. |
| Timestamps.UnwrapNearest | src/main/java/net/bramp/ffmpeg/nut/Frame.java:121-124 | No integer congruent to the coded value is closer to the stream's last timestamp than the rebuilt timestamp. |
| Timestamps.FullPtsIgnoresLast | src/main/java/net/bramp/ffmpeg/nut/Frame.java:125-126 | A coded value of at least `2^S` gives `coded - 2^S`, whatever the last timestamp. |
| Timestamps.UnwrapExample | src/main/java/net/bramp/ffmpeg/nut/Frame.java:121-126 | With `S = 8` and last timestamp 1000 the window starts at 873; coded 130 gives 898, and coded 104 gives 1128, the top of the window. |
| MetaData.ValueAt | src/main/java/net/bramp/ffmpeg/nut/Frame.java:49-74 | Reading a value stays within the input, and the only way it fails is a read failure. |
| MetaData.EntryAt | src/main/java/net/bramp/ffmpeg/nut/Frame.java:45-74 | Reading an entry (name, tag, value) stays within the input, and the only way it fails is a read failure. |
| MetaData.EntriesAt | src/main/java/net/bramp/ffmpeg/nut/Frame.java:44-77 | Reading `n` entries yields exactly `n` entries, stays within the input, and fails only on a read failure. |
| MetaData.MetaAt | src/main/java/net/bramp/ffmpeg/nut/Frame.java:41-79 | Reading a block stays within the input and fails only on a read failure. |
| MetaData.Collect | src/main/java/net/bramp/ffmpeg/nut/Frame.java:76 | The map the `put` calls build, entry by entry in input order; `CollectLastWins` states that the last entry of each name wins. |
| MetaData.ValueRoundTrip | src/main/java/net/bramp/ffmpeg/nut/Frame.java:49-74 | Decoding an encoded value under its own tag gives the value back and stops right after its encoding; for tag -3 this is every signed integer. |
| MetaData.EntryRoundTrip | src/main/java/net/bramp/ffmpeg/nut/Frame.java:45-74 | Decoding an encoded entry gives the entry back and stops right after its encoding. |
| MetaData.EntryCanonical | src/main/java/net/bramp/ffmpeg/nut/Frame.java:45-74 | Conversely, whatever decodes as an entry is exactly that entry's encoding. |
| MetaData.EntriesFromRun | src/main/java/net/bramp/ffmpeg/nut/Frame.java:44-77 | Entries encoded back to back decode as exactly that run of entries, ending where the last one ends. |
| MetaData.EntriesCanonical | src/main/java/net/bramp/ffmpeg/nut/Frame.java:44-77 | Conversely, every run of `n` entries that decodes is laid out as `n` encoded entries back to back. |
| MetaData.MetaFromEntries | src/main/java/net/bramp/ffmpeg/nut/Frame.java:41-79 | A block is its count followed by exactly that many entries, collected into a map. |
| MetaData.MetaRoundTrip | src/main/java/net/bramp/ffmpeg/nut/Frame.java:41-79 | A count followed by that many encoded entries decodes to the map of those entries and stops after the last one. |
| MetaData.EntriesFailFrom | src/main/java/net/bramp/ffmpeg/nut/Frame.java:44-77 | Once one entry fails to decode, the whole count-limited loop fails. |
| MetaData.CollectLastWins | src/main/java/net/bramp/ffmpeg/nut/Frame.java:76 | A name is in the map exactly when some entry has it, and its value is that of the last entry with that name. |
| MetaData.ValueByTag | src/main/java/net/bramp/ffmpeg/nut/Frame.java:57-74 | Tag -3 yields the following signed integer, tag -4 the raw unsigned value, a tag below -4 the fraction with the following numerator and denominator `-tag - 4` (at least 1), and a tag of 0 or more the tag itself, reading nothing. |
| MetaData.RatioExample | src/main/java/net/bramp/ffmpeg/nut/Frame.java:67-70 | Tag -6 with numerator 3 gives the fraction 3/2. |
| NutFrame.FlagsAt | src/main/java/net/bramp/ffmpeg/nut/Frame.java:88-96 | The effective flags are the table flags XOR the coded flags when the table has the coded-flags bit, and exactly the table flags otherwise; only then is a value read. |
| NutFrame.IndexAt | src/main/java/net/bramp/ffmpeg/nut/Frame.java:106-114 | A coded index succeeds if and only if it is below its bound; one at or above the bound is the given error; without the flag the table's default is taken unchecked and nothing is read. |
| NutFrame.HeadAt | src/main/java/net/bramp/ffmpeg/nut/Frame.java:83-116 | A decoded head names an existing stream and stays within the input. |
| NutFrame.PtsAt | src/main/java/net/bramp/ffmpeg/nut/Frame.java:119-130 | With the coded-timestamp flag the timestamp is the coded value unwrapped against the last timestamp; without it, the last timestamp plus the table's step. |
| NutFrame.SizeAt | src/main/java/net/bramp/ffmpeg/nut/Frame.java:98-136 | The size is `lsb + mul * msb` when the high part is coded, `lsb` otherwise. |
| NutFrame.MatchTimeAt | src/main/java/net/bramp/ffmpeg/nut/Frame.java:137-139 | The match-time delta only consumes one signed value, when flagged. |
| NutFrame.ReservedAt | src/main/java/net/bramp/ffmpeg/nut/Frame.java:147-149 | The reserved count is the coded value when flagged, the table's otherwise. |
| NutFrame.SkipUnsigned | src/main/java/net/bramp/ffmpeg/nut/Frame.java:151-153 | Skipping `n` values succeeds exactly when `n` unsigned tokens follow (always, for `n <= 0`) and moves `max(n, 0)` tokens. |
| NutFrame.ChecksumAt | src/main/java/net/bramp/ffmpeg/nut/Frame.java:155-158 | The checksum only consumes one fixed 32-bit value, when flagged. |
| NutFrame.DroppedAt | src/main/java/net/bramp/ffmpeg/nut/Frame.java:147-158 | Reading the reserved values and the checksum stays within the input and fails only on a read failure. |
| NutFrame.FieldsAt | src/main/java/net/bramp/ffmpeg/nut/Frame.java:133-162 | The elision entry settled after the fields exists in the table. |
| NutFrame.SideDataAt | src/main/java/net/bramp/ffmpeg/nut/Frame.java:165-179 | Side data in a container below version 4 is an error; without the flag both maps are absent and nothing is read; with it both are present. |
| NutFrame.PayloadAt | src/main/java/net/bramp/ffmpeg/nut/Frame.java:182-186 | The payload has length `size`, starts with the elision prefix and continues with the next size-minus-prefix-length raw bytes; a size below the prefix length is an error. |
| NutFrame.DataAt | src/main/java/net/bramp/ffmpeg/nut/Frame.java:165-186 | Side and meta data, then the payload, whose size is the declared size less the bytes of the blocks; `SideDataNeedsVersion` and `DataLayout` state its meaning. |
| NutFrame.BodyAt | src/main/java/net/bramp/ffmpeg/nut/Frame.java:133-186 | The coded fields after the timestamp, then the data at the elision entry they settle; `WriteBackPrecedesChecks` states that its errors follow the write-back. |
| NutFrame.Decode | src/main/java/net/bramp/ffmpeg/nut/Frame.java:82-186 | A decoded frame has written its timestamp back to its own stream, and any write goes to an existing stream. |
| NutFrame.ReadValue | src/main/java/net/bramp/ffmpeg/nut/Frame.java:49-74 | The reading code agrees with `ValueAt`: same outcome, same value, same end position. |
| NutFrame.ReadEntry | src/main/java/net/bramp/ffmpeg/nut/Frame.java:45-74 | The reading code agrees with `EntryAt`. |
| NutFrame.ReadIndex | src/main/java/net/bramp/ffmpeg/nut/Frame.java:106-114 | The reading code agrees with `IndexAt`. |
| NutFrame.Frame.ReadMetaData | src/main/java/net/bramp/ffmpeg/nut/Frame.java:41-79 | The count-bounded loop agrees with `MetaAt`: the map of exactly `count` entries, later names winning, or the failure. |
| NutFrame.Frame.ReadFlags | src/main/java/net/bramp/ffmpeg/nut/Frame.java:88-96 | Sets `flags` to what `FlagsAt` specifies. |
| NutFrame.Frame.ReadHead | src/main/java/net/bramp/ffmpeg/nut/Frame.java:83-116 | Agrees with `HeadAt` and selects `streams[id]` as the frame's stream. |
| NutFrame.Frame.ReadPts | src/main/java/net/bramp/ffmpeg/nut/Frame.java:119-131 | Sets `pts` as `PtsAt` specifies and writes it to the stream's last timestamp. |
| NutFrame.Frame.ReadDropped | src/main/java/net/bramp/ffmpeg/nut/Frame.java:147-158 | The discard loop and the checksum read agree with `DroppedAt`. |
| NutFrame.Frame.ReadFields | src/main/java/net/bramp/ffmpeg/nut/Frame.java:133-162 | Agrees with `FieldsAt` and leaves the reader after the fields. |
| NutFrame.Frame.ReadSideData | src/main/java/net/bramp/ffmpeg/nut/Frame.java:165-179 | Agrees with `SideDataAt` and returns the byte count of what it read. |
| NutFrame.Frame.ReadPayload | src/main/java/net/bramp/ffmpeg/nut/Frame.java:181-186 | Allocates a fresh array whose contents are the payload `PayloadAt` specifies. |
| NutFrame.Frame.ReadData | src/main/java/net/bramp/ffmpeg/nut/Frame.java:165-186 | Agrees with `DataAt`: the size less the side-data bytes, then the payload. |
| NutFrame.Frame.ReadBody | src/main/java/net/bramp/ffmpeg/nut/Frame.java:133-186 | Agrees with `BodyAt`. |
| NutFrame.Frame.Read | src/main/java/net/bramp/ffmpeg/nut/Frame.java:82-189 | Agrees with `Decode`: the same success or error, and on success the frame's stream, flags, timestamp, side data, meta data, a fresh payload array and the reader position are the decoded ones. The written timestamp lands in the selected stream object (in every list slot that holds it) even when a later check fails; no other stream changes. |
| NutFrame.SkipFailsFrom | src/main/java/net/bramp/ffmpeg/nut/Frame.java:151-153 | Once one discarded value fails to read, the whole discard loop fails. |
| FrameProperties.RefusedCodes | src/main/java/net/bramp/ffmpeg/nut/Frame.java:83-91 | Code 78 and codes whose table flags are invalid fail before anything is read or written; any write implies neither. |
| FrameProperties.DecodedHead | src/main/java/net/bramp/ffmpeg/nut/Frame.java:88-116 | A decoded frame's flags follow the XOR rule, and its stream is the coded id when flagged, the table's otherwise, and exists. |
| FrameProperties.StreamIdChecked | src/main/java/net/bramp/ffmpeg/nut/Frame.java:106-111 | A coded stream id that is not below the stream count stops decoding with nothing written. |
| FrameProperties.WrittenPts | src/main/java/net/bramp/ffmpeg/nut/Frame.java:119-131 | The timestamp written to the selected stream is congruent to the coded value, within the window and nearest the last timestamp (truncated case); the coded value less `2^S` (full case); or the last timestamp plus the step (uncoded case). |
| FrameProperties.WriteBackPrecedesChecks | src/main/java/net/bramp/ffmpeg/nut/Frame.java:131-186 | Once the head and timestamp decode, the write-back happens even if a later size, index, version or payload check fails. |
| FrameProperties.FieldsSizeAndIndex | src/main/java/net/bramp/ffmpeg/nut/Frame.java:98-162 | The size is `lsb + mul * msb` or `lsb`; above 4096 the elision entry is 0, otherwise the coded index or the table's. |
| FrameProperties.HeaderIndexChecked | src/main/java/net/bramp/ffmpeg/nut/Frame.java:140-146 | A coded header index outside the elision table is an error even when the size is above 4096. |
| FrameProperties.SideDataNeedsVersion | src/main/java/net/bramp/ffmpeg/nut/Frame.java:165-170 | Side data in a container below version 4 is an error. |
| FrameProperties.SideDataBlocks | src/main/java/net/bramp/ffmpeg/nut/Frame.java:165-174 | With side data, the side data and meta data are two metadata blocks decoded back to back. |
| FrameProperties.DataLayout | src/main/java/net/bramp/ffmpeg/nut/Frame.java:165-186 | The payload length plus the side-data bytes is the size; the payload starts with the elision prefix and continues with the raw bytes after the blocks. |
| FrameProperties.DecodeExample | src/main/java/net/bramp/ffmpeg/nut/Frame.java:82-186 | A whole frame: coded timestamp 130 with shift 8 and last 1000 decodes to 898, written to stream 0; the payload is the one-byte prefix and two raw bytes. |

## Left out

- `NutStream.Width`: a token's byte width is that of the shortest encoding of its value. A stream that pads a varint with extra leading continuation bytes would make `offset()` larger than `Span`, and so the payload size after side data smaller than the model's; such streams are not modelled.
- Byte-level decoding in `NutDataInputStream` (`readVarLong`, `readVarInt`, `readSignedVarInt`, `readVarArray`, `readInt`, `readFully`): that class is not part of this model. The reader is a cursor over decoded tokens, with the widths used for `offset()`. A token of the wrong kind, or the end of input, is a read failure.
- Java integer widths: `readVarInt`'s 32-bit result, overflow of `size` and of the size products, and overflow of the loop counters are not modelled; all arithmetic is on unbounded integers. Coded flags are taken modulo 2^64, as a `long` holds them.
- `1 << msb_pts_shift` (an `int` shift at line 121, a `long` shift at line 122): the shift is required to be below 31, where the two agree.
- `NutFrame.Frame.Read` and `NutFrame.Decode` require the frame code to index the table and the table's default stream id and header index to be in range. The source indexes the table unchecked and never validates these defaults.
- Charset conversion of names and strings, and the `k + "=" + v` join: names and text are byte sequences, and a key/value value keeps its two parts.
- `TreeMap` ordering: the metadata is a Dafny `map`; only lookup and last-write-wins are modelled.
- `MetaData.ValueAt`: a fraction is the pair (numerator, denominator) over unbounded integers. The `(int)` casts at line 70 are not modelled: they wrap a numerator or denominator that does not fit in 32 bits, and a wrapped denominator can be zero (which `Fraction.getFraction` refuses with an exception) or negative (which it turns into a positive denominator by moving the sign onto the numerator).
- The checksum and the match-time delta are only consumed, as in the source.
- The key-frame and end-of-relevance flags are carried in `flags` but never consulted, as in the source.
- A negative size, or one below the elision prefix length, which in Java raises a runtime exception from the array allocation or copy: modelled as the error `PayloadTooSmall`.
- `NutFrame.Frame.Read`: on failure, the frame's own fields are left unspecified (the source assigns some before throwing). The stream write-back is fully specified.
- `NutStream.Reader.ReadFully`: after a failure, the reader position and array contents inside the range are unspecified.
- Exception message texts, logging (`LOG.debug`), `toString` and the byte-pool note: no behaviour to model.
