# DVK core in Dafny

A model of the framing and decoding core of DVK, a device protocol toolkit.
A protocol is a JSON description of frames: a header byte pattern, a length rule
(fixed, `dynamic` with a length field plus overhead, or `counted` with a count
field times a unit size plus overhead), typed fields and an optional checksum.
The model covers these pieces:

- `Checksums`: the checksum library (`reflect_bits`, CRC-16/32, `sum8`, `cs15`,
  `xor16_slices`, the stored-value reader, `compute_checksum`,
  `verify_checksum`).
- `Headers`, `Lengths`: header extraction and total-length resolution. Each of
  the four scripts has its own variant of these, and each variant is modelled
  separately.
- `Framing`: the transport session's `frame_stream` and the live reader's
  `_iter_framed_bytes`, as one resync/cut/verify step over a buffer and a driver
  over a finite list of chunks.
- `Detect`, `Ranking`: the detector's `iter_frames`, `sniff_score_protocol`,
  the stable descending sort and `pick_by_sniff`, and
  `protocol_refs_for_model`.
- `Codec`, `Decode`: `parse_value`, `decode_frame` and `decode_frames_file` of
  the decoder, and the live reader's `_decode_raw_fields`.
- `Encode`: `encode_value`, `find_command`, `build_payload`,
  `encode_checksum` and `build_frame` of the encoder.
- `Select`: the transport session's choice of frame spec (by name or by the
  `if_bits_v1` selector).
- `Semantics`: the triplet and `if_dn` point-cloud transforms and
  `apply_semantics`.
- `Ring`: the shared-memory point ring (`create_ring`, `write_points`,
  `read_latest`) as a value.
- `Report`: the Markdown-to-HTML converter of the report script.

The supporting modules model Python's behaviour where the scripts depend on it:

- `Wrappers` holds `Option`/`Result`, and an exception becomes an `Err`.
- `PyInt` models Python's unbounded `&`, `|`, `^`, `>>` and `<<`, including
  negative operands.
- `PyBytes` models slices with negative and out-of-range bounds, `find`, and
  `int.from_bytes`.
- `PyStr` models `bytes.fromhex`, `int(s)` (base 10), `int(s, 16)`, `isdigit`
  and the string helpers.
- `Values` holds the JSON values and the insertion-ordered dict.
- `Spec` holds the protocol description.
- `Seqs` holds sequence utilities.

A loop that never ends in Python is a distinct `Hangs` outcome, not an
`Err`. Floating-point field types are outside the model (see "Left out").

## Model

| member | source | states |
|---|---|---|
| Checksums.ReflectBits | dvk/checksums.py:14-19 | the bit loop equals the independent mirror of the low `width` bits and stays below 2^width |
| Checksums.ReflectTwice | dvk/checksums.py:14-19 | reflecting a value below 2^width twice gives the value back |
| Checksums.MirrorTwice | dvk/checksums.py:14-19 | the reference mirror is an involution on values below 2^width |
| Checksums.CrcCompute | dvk/checksums.py:22-46 | the result is an error exactly when the MSB-first branch would shift by a negative amount; otherwise it is below 2^width and equals xorout applied to the final register of the reflected or MSB-first byte loop, mirrored when refout is set, and masked to width |
| Checksums.RefinRegisterAppend | dvk/checksums.py:30-35 | feeding `a + b` to the reflected register equals feeding `a` and then `b` |
| Checksums.NormalRegisterAppend | dvk/checksums.py:36-41 | feeding `a + b` to the MSB-first register equals feeding `a` and then `b` |
| Checksums.RefinRegisterBound | dvk/checksums.py:30-35 | with a polynomial below 2^width, the reflected register never leaves the width |
| Checksums.RefinRegisterOfAppend | dvk/checksums.py:30-35 | the masked reflected register over `a + b` resumes from the register after `a` |
| Checksums.RegisterOfAppend | dvk/checksums.py:36-41 | the masked MSB-first register over `a + b` resumes from the register after `a` |
| Checksums.CrcResumes | dvk/checksums.py:22-46 | the CRC of `a + b` equals the CRC of `b` started with the register left by `a` as its init |
| Checksums.Sum8 | dvk/checksums.py:49-50 | the result is the sum of the Python slice `frame[start:end+1]` modulo 256 |
| Checksums.Cs15 | dvk/checksums.py:53-68 | the result is below 0x8000 and equals the 15-bit fold of the weighted little-endian word sum, where an odd tail byte is a low byte |
| Checksums.Cs15PadInvariant | dvk/checksums.py:61-62 | padding an odd-length input with a zero byte does not change cs15 |
| Checksums.Cs15LoopTotal | dvk/checksums.py:63-66 | the shift-and-add word loop computes the weighted word sum |
| Checksums.SliceWindow | dvk/checksums.py:125-143 | a slice with a non-positive stride or an empty frame is skipped; otherwise its resolved window lies inside the frame |
| Checksums.Xor16 | dvk/checksums.py:101-157 | the high byte is the XOR of the up-selected positions and the low byte the XOR of the low-selected positions, each defined independently of the loops, and the result is below 65536 |
| Checksums.SelectedFold | dvk/checksums.py:115-157 | the seed and slice loops accumulate exactly the XOR over the selected positions, each a byte |
| Checksums.ResolveIndex | dvk/checksums.py:71-72 | a negative index counts from the end and a non-negative one is kept; the result is in bounds exactly when the index is a valid Python index |
| Checksums.ResolveMatchesIndexing | dvk/checksums.py:71-72 | an in-bounds resolved index reads the same element as Python indexing |
| Checksums.ChecksumNBytes | dvk/checksums.py:75-82 | `uint8` gives 1, a `uint16_` prefix 2 and a `uint32_` prefix 4; any other format raises |
| Checksums.ReadExpected | dvk/checksums.py:85-98 | succeeds exactly when the format is known and the stored bytes fit at the resolved index; the value is that byte or the little- or big-endian reading of those bytes |
| Checksums.ResolveRange | dvk/checksums.py:169-175 | a range resolves only when both ends are present and `0 <= start <= end < len`, with Python's negative-index rule |
| Checksums.RangeChecksum | dvk/checksums.py:176-200 | sum8 and cs15 over the inclusive range; a CRC succeeds exactly when the store format and all five CRC parameters are present, and equals CrcCompute over the range; an unknown type raises |
| Checksums.ComputeChecksum | dvk/checksums.py:160-200 | a missing type raises; xor16_slices needs params and equals Xor16 over the whole frame; any other type equals the range checksum over the resolved range |
| Checksums.StoreFormat | dvk/checksums.py:206-213 | an explicit store format wins; the defaults are uint8 for sum8 and uint16_le for cs15 and xor16_slices; any other type without a format raises |
| Checksums.VerifyChecksum | dvk/checksums.py:203-217 | succeeds exactly when type, format, position, stored value and computed value are all available, and is then true exactly when computed equals stored |
| Headers.StrictByte | skills/transport_session_skill/scripts/transport_session.py:150-153 | accepts exactly the four-character `0x` tokens that `int(token, 16)` parses, and gives their value |
| Headers.ExtractHeader | skills/transport_session_skill/scripts/transport_session.py:145-154 | a non-empty list whose every token is a strict byte token gives those bytes in order; anything else raises (the live reader, dvk_live.py lines 55-64, applies the same strict rule) |
| Headers.HeaderRoundTrip | skills/transport_session_skill/scripts/transport_session.py:145-154 | the byte tokens printed for any byte sequence parse back to that sequence |
| Headers.ByteTokenParses | skills/transport_session_skill/scripts/transport_session.py:150-153 | the printed token of a byte parses back to that byte |
| Headers.ParseHexBytes | skills/protocol_detection_skill/scripts/dvk_detect_protocol.py:84-90 | succeeds exactly when every token is a strict byte token, and gives one byte per token in order |
| Headers.DetectHeader | skills/protocol_detection_skill/scripts/dvk_detect_protocol.py:178-188 | every header byte is the strict value of its token's text; on a list of strings it agrees with ExtractHeader |
| Headers.LenientHeader | skills/protocol_decode_skill/scripts/dvk_decode.py:130-138 | a missing, non-list or empty header raises; a non-empty list is read leniently, as `LenientTokens` states |
| Headers.LenientTokens | skills/protocol_decode_skill/scripts/dvk_decode.py:134-138 | succeeds exactly when every `0x` string parses with `int(token, 16)` below 256; the result then holds one byte per `0x` string, in order, each that string's value; a list with no `0x` string gives no bytes (the encoder's loop at dvk_encode.py lines 180-183 is the same) |
| Headers.LenientToken | skills/protocol_decode_skill/scripts/dvk_decode.py:136-137 | a token that is not a `0x` string adds nothing; a `0x` string adds its value as one byte, or raises when it does not parse or is 256 or more |
| Headers.LenientSkipsOthers | skills/protocol_decode_skill/scripts/dvk_decode.py:135-137 | the tokens that are not `0x` strings change nothing, not even the error raised: the list reads as its `0x` strings alone |
| Lengths.StrictParseUint | skills/transport_session_skill/scripts/transport_session.py:52-73 | succeeds exactly for a known unsigned type whose width equals the field length, and gives its little- or big-endian value |
| Lengths.LenientParseUint | skills/transport_session_skill/scripts/dvk_live.py:67-78 | the live reader reads `uint8` from the first byte and wider types from all bytes; on exact-width input it agrees with the strict parser |
| Lengths.StrictFromFrame | skills/transport_session_skill/scripts/transport_session.py:91-117 | the length object is accepted exactly when its mode's required keys (value; field and overhead; count field, unit and overhead) are present |
| Lengths.StrictTotalLength | skills/transport_session_skill/scripts/transport_session.py:119-142 | fixed gives its value; a length field not yet in the buffer gives -1; otherwise the field is read strictly and gives value + overhead or count × unit + overhead |
| Lengths.StrictTotalLengthStable | skills/transport_session_skill/scripts/transport_session.py:129-142 | once the length field is in the buffer, more bytes do not change the total length |
| Lengths.LiveFromFrame | skills/transport_session_skill/scripts/dvk_live.py:94-112 | the live length object is accepted exactly when its mode's required keys are present, and keeps its field |
| Lengths.LiveTotalLength | skills/transport_session_skill/scripts/dvk_live.py:114-129 | fixed gives its value; an unreadable field gives -1; otherwise an unsigned field gives value + overhead or count × unit + overhead |
| Lengths.LiveTotalLengthStable | skills/transport_session_skill/scripts/dvk_live.py:114-129 | once the field is readable, more bytes do not change the live total length |
| Lengths.LiveAgreesWithStrict | skills/transport_session_skill/scripts/dvk_live.py:114-129 | for a well-formed length field, the live and transport total lengths agree on every buffer |
| Lengths.ParseLengthSpec | skills/protocol_detection_skill/scripts/dvk_detect_protocol.py:191-198 | an object is used as is; the string `fixed` becomes a fixed length of `total_length` (default 0); anything else raises |
| Lengths.DetectTotalLength | skills/protocol_detection_skill/scripts/dvk_detect_protocol.py:222-243 | fixed gives its value (default -1), an unknown mode -1, and dynamic/counted read their field when it is in the buffer |
| Lengths.DecoderFrameLength | skills/protocol_decode_skill/scripts/dvk_decode.py:141-178 | an absent length gives 0, fixed its value, an unknown mode -1, and dynamic/counted the field-derived length; a non-object raises |
| Lengths.FieldFrameLength | skills/protocol_decode_skill/scripts/dvk_decode.py:148-176 | a field beyond the buffer or too short for its type gives -1; an integer field gives value + overhead or overhead + count × unit; a non-integer dynamic field raises |
| Framing.TrimNoise | skills/transport_session_skill/scripts/transport_session.py:181-185 | keeps a suffix of the buffer no longer than the header, so that a header split across chunks is not lost |
| Framing.Step | skills/transport_session_skill/scripts/transport_session.py:180-209 | one pass of the loop: without a header the buffer is trimmed; otherwise bytes before the header are dropped and counted as one resync; an unknown length waits; a cut removes exactly total_length bytes and counts them as a frame or as a bad checksum |
| Framing.Drain | skills/transport_session_skill/scripts/transport_session.py:180-209 | with the zero-length guard the loop ends; every frame it writes is a good cut; a loop that hangs sits at a header whose length is 0 |
| Framing.Feed | skills/transport_session_skill/scripts/transport_session.py:173-209 | reading chunks counts every byte read and only extends the list of frames with good cuts |
| Framing.FrameStream | skills/transport_session_skill/scripts/transport_session.py:165-211 | a bad header or length spec raises; otherwise it never hangs, counts all bytes read, and every frame it yields starts with the header, is a cut of the stated length, and verifies when checksums are on |
| Framing.FrameStreamAsWritten | skills/transport_session_skill/scripts/transport_session.py:165-211 | `frame_stream` as written either never ends or gives exactly what the guarded `FrameStream` gives: the missing guard matters only when a total length of 0 turns up |
| Framing.DrainGuardIrrelevant | skills/transport_session_skill/scripts/transport_session.py:180-209 | one run of the inner loop without the zero-length guard hangs or equals the guarded run, whatever the length rule and checksum test |
| Framing.FeedGuardIrrelevant | skills/transport_session_skill/scripts/transport_session.py:165-211 | the same for the whole read loop over any chunk list |
| Framing.FedFrames | skills/transport_session_skill/scripts/transport_session.py:165-211 | the same promise, stated for any chunk list given to the driver |
| Framing.LiveFrames | skills/transport_session_skill/scripts/dvk_live.py:176-204 | never hangs, and every frame it yields starts with the header, is a cut of the live length, and verifies when a non-empty checksum spec is given |
| Framing.LiveFramesAsWritten | skills/transport_session_skill/scripts/dvk_live.py:176-204 | `_iter_framed_bytes` as written either never ends or yields exactly what the guarded `LiveFrames` yields |
| Framing.EmptyChunkIgnored | skills/transport_session_skill/scripts/dvk_live.py:181-183 | an empty chunk changes nothing |
| Framing.ZeroLengthSpins | skills/transport_session_skill/scripts/dvk_live.py:193-197 | at a header whose length resolves to 0, each unguarded pass counts one frame and leaves the buffer unchanged |
| Framing.HangsForever | skills/transport_session_skill/scripts/transport_session.py:190-197 | once the unguarded loop hangs, any number of further passes leaves the buffer as it is |
| Framing.ZeroLengthExample | skills/transport_session_skill/scripts/transport_session.py:190-197 | a fixed length of 0 with header `AA` and input `AA` hangs as written and finishes with the guard |
| Framing.LiveZeroLengthExample | skills/transport_session_skill/scripts/dvk_live.py:193-197 | the same input hangs the live reader as written and finishes with the guard |
| Framing.OneByteFeed | skills/transport_session_skill/scripts/transport_session.py:190-197 | for any length rule that gives 0 on the header alone, the unguarded feed hangs and the guarded one finishes with the byte kept |
| Detect.DetectRun | skills/protocol_detection_skill/scripts/dvk_detect_protocol.py:201-261 | a bad header or length spec raises; otherwise the scan never hangs, and each counted frame starts with the header, is a cut of the detect length, and verifies when checksums are on |
| Detect.IterFrames | skills/protocol_detection_skill/scripts/dvk_detect_protocol.py:201-261 | the counts are those of the scan; with checksums off nothing is counted bad |
| Detect.SniffScore | skills/protocol_detection_skill/scripts/dvk_detect_protocol.py:292-308 | the counts over no frame specs are zero, and the result succeeds exactly when every frame spec scans |
| Detect.SniffScoreAppend | skills/protocol_detection_skill/scripts/dvk_detect_protocol.py:301-308 | the counts over `a + b` are the sums of the counts over `a` and over `b` |
| Detect.ScoreOne | skills/protocol_detection_skill/scripts/dvk_detect_protocol.py:322-335 | a candidate's record carries its counts and the score ok × 100 − bad × 50 − resyncs |
| Detect.PickBySniff | skills/protocol_detection_skill/scripts/dvk_detect_protocol.py:318-345 | raises exactly when some candidate's scan raises; otherwise it is the ranking of the scored candidates |
| Detect.PickIsFirstCandidate | skills/protocol_detection_skill/scripts/dvk_detect_protocol.py:336-345 | a picked protocol is the earliest candidate with the highest score |
| Detect.ProtocolRefsForModel | skills/protocol_detection_skill/scripts/dvk_detect_protocol.py:144-157 | a non-list gives no references, and a list gives at most one per entry |
| Detect.RefsOfAppend | skills/protocol_detection_skill/scripts/dvk_detect_protocol.py:148-156 | the references of `a + b` are those of `a` followed by those of `b` |
| Detect.RefsOfOne | skills/protocol_detection_skill/scripts/dvk_detect_protocol.py:149-156 | a dict with a truthy protocol id gives one reference, with the expected version when that is truthy; anything else gives none |
| Ranking.SumCountsAppend | skills/protocol_detection_skill/scripts/dvk_detect_protocol.py:301-308 | adding the counts of a concatenation equals adding the two parts |
| Ranking.InsertDesc | skills/protocol_detection_skill/scripts/dvk_detect_protocol.py:336 | inserting into a descending list keeps it descending and is a permutation |
| Ranking.SortDesc | skills/protocol_detection_skill/scripts/dvk_detect_protocol.py:336 | the result is descending by score, a permutation of the input, and stable (equal scores keep their order) |
| Ranking.PickTop | skills/protocol_detection_skill/scripts/dvk_detect_protocol.py:336-345 | no pick when the list is empty or the best has no good frame; otherwise the best is picked, and it is ambiguous exactly when a runner-up with good frames is within 50 points |
| Ranking.SortedHeadIsFirstBest | skills/protocol_detection_skill/scripts/dvk_detect_protocol.py:336 | the head of the sorted list is the first entry of the input with the highest score |
| Ranking.PickIsFirstBest | skills/protocol_detection_skill/scripts/dvk_detect_protocol.py:336-345 | the pick is the first input entry with the highest score |
| Codec.IntTypeOf | skills/protocol_decode_skill/scripts/dvk_decode.py:50-79 | exactly the ten integer type names are integers, of width 1, 2 or 4 |
| Codec.ToSigned | skills/protocol_decode_skill/scripts/dvk_decode.py:50-79 | the signed reading lies in the type's range and is congruent to the unsigned reading |
| Codec.ParseValueReads | skills/protocol_decode_skill/scripts/dvk_decode.py:50-79 | a non-integer type gives the hex text; too few bytes give None; an integer type gives an in-range value congruent to the leading bytes |
| Codec.PackBytes | skills/protocol_encode_skill/scripts/dvk_encode.py:49-80 | the packed bytes have the type's width and read back as the value |
| Codec.EncodeValue | skills/protocol_encode_skill/scripts/dvk_encode.py:49-80 | an integer type needs an integer (in range when signed) and gives its width-sized encoding modulo 2^(8·width); `bytes` takes hex text or a zero-filled count; any other type raises |
| Codec.EncodeInt | skills/protocol_encode_skill/scripts/dvk_encode.py:49-80 | a signed value out of range raises; otherwise the bytes read back as the value modulo 2^(8·width) |
| Codec.EncodeBytes | skills/protocol_encode_skill/scripts/dvk_encode.py:49-80 | hex text gives its bytes, and a non-negative integer n gives n zero bytes |
| Codec.DecodeEncodeInt | skills/protocol_encode_skill/scripts/dvk_encode.py:49-80 | parsing an encoded integer gives it back (reduced modulo 2^(8·width) for unsigned types) |
| Codec.EncodeDecodeInt | skills/protocol_decode_skill/scripts/dvk_decode.py:50-79 | encoding a parsed integer field gives back the bytes it was read from |
| Codec.UnsignedInjective | skills/protocol_decode_skill/scripts/dvk_decode.py:50-79 | two byte strings of one length with the same reading are equal |
| Codec.DecodeEncodeBytes | skills/protocol_encode_skill/scripts/dvk_encode.py:49-80 | the hex text of any bytes encodes to those bytes, which decode to the same text |
| Decode.ResolveFieldLength | skills/protocol_decode_skill/scripts/dvk_decode.py:82-97 | an integer length is used as is; a reference to a field not yet present, or any other JSON value, gives 0; a present reference gives value × mul + add, where a mul that is not an integer counts as 1 and a value or add that is not an integer raises |
| Decode.FieldRaw | skills/protocol_decode_skill/scripts/dvk_decode.py:118-123 | the raw bytes are exactly the `length` bytes at the resolved offset |
| Decode.DecodeWith | skills/protocol_decode_skill/scripts/dvk_decode.py:108-127 | no fields decode to the record as given; an incomplete result needs at least one field |
| Decode.DecodeFrame | skills/protocol_decode_skill/scripts/dvk_decode.py:108-127 | keys of the record are only added, a key that no field names keeps its value, and a `True` return means every field is in the record |
| Decode.DecodeFirstField | skills/protocol_decode_skill/scripts/dvk_decode.py:112-125 | a field that fits sets its name to the parsed value and leaves every other key, and decoding continues with the rest |
| Decode.DecodeFrameAdds | skills/protocol_decode_skill/scripts/dvk_decode.py:108-127 | decoding never removes a key |
| Decode.DecodeFrameLeaves | skills/protocol_decode_skill/scripts/dvk_decode.py:108-127 | keys that no field names keep their values |
| Decode.DecodeFrameFills | skills/protocol_decode_skill/scripts/dvk_decode.py:112-127 | a complete decode has a value for every field |
| Decode.DecodeFrameStopsAtFirstMisfit | skills/protocol_decode_skill/scripts/dvk_decode.py:118-121 | an incomplete decode is the complete decode of a prefix followed by the first field that does not fit |
| Decode.DecodeFrameAppend | skills/protocol_decode_skill/scripts/dvk_decode.py:112-127 | decoding `a + b` decodes `a` and then, when that completed, `b` |
| Decode.ScanStep | skills/protocol_decode_skill/scripts/dvk_decode.py:203-215 | no header ends the scan; an unusable length skips one byte past the header; a cut starts at the first header and spans the decoder frame length |
| Decode.Fresh | skills/protocol_decode_skill/scripts/dvk_decode.py:218-222 | a new record holds only `_frame_idx` and `_timestamp` (None), each when asked for |
| Decode.Account | skills/protocol_decode_skill/scripts/dvk_decode.py:215-231 | every candidate is counted and its span recorded; a complete record is kept with its index, and an incomplete one counts as an error |
| Decode.AccountExplains | skills/protocol_decode_skill/scripts/dvk_decode.py:215-231 | accounting a candidate's decode keeps every record and error explained by its span |
| Decode.AccountLocated | skills/protocol_decode_skill/scripts/dvk_decode.py:203-215 | a header-led cut past the last span keeps the spans ordered, non-overlapping and header-led |
| Decode.WalkKeeps | skills/protocol_decode_skill/scripts/dvk_decode.py:203-231 | the scan keeps its counters consistent, explains every record by the decode of its span, and locates every span at a header with the frame length |
| Decode.WalkFromStart | skills/protocol_decode_skill/scripts/dvk_decode.py:203-231 | the same, from the start of the file |
| Decode.KeptFilled | skills/protocol_decode_skill/scripts/dvk_decode.py:218-225 | every kept record holds all fields and, when asked, its frame index |
| Decode.DecodeFramesFile | skills/protocol_decode_skill/scripts/dvk_decode.py:181-233 | a bad header raises; otherwise the loop's result equals the recursive scan, and each record or error is the decode of a header-led span whose length is the decoder frame length, the spans strictly increasing |
| Decode.LiveParseValue | skills/transport_session_skill/scripts/dvk_live.py:136-149 | unsigned types read as the decoder reads them; every other type gives hex text |
| Decode.LiveResolveLength | skills/transport_session_skill/scripts/dvk_live.py:151-160 | integer lengths are used as is; a non-integer mul or add raises; a reference to a missing field gives 0 |
| Decode.LiveDecodeFrom | skills/transport_session_skill/scripts/dvk_live.py:162-173 | decoding never removes a key and leaves keys that no field names |
| Decode.DecodeRawFields | skills/transport_session_skill/scripts/dvk_live.py:132-173 | the record holds no key that no field names |
| Decode.LiveSkipsMisfit | skills/transport_session_skill/scripts/dvk_live.py:167-170 | the live reader skips a field that does not fit and goes on, while the decoder stops there |
| Decode.LengthsAgree | skills/transport_session_skill/scripts/dvk_live.py:151-160 | on plain lengths the live and decoder length rules agree |
| Decode.ValuesAgree | skills/transport_session_skill/scripts/dvk_live.py:136-149 | on shared types the live and decoder value readers agree |
| Decode.LiveAgreesWithDecodeFrame | skills/transport_session_skill/scripts/dvk_live.py:162-173 | when every field fits, the live reader's record equals the decoder's |
| Encode.Matches | skills/protocol_encode_skill/scripts/dvk_encode.py:86-94 | a command matches by name, by integer id against a `0x` selector (which raises when not hex), or by the text of its id |
| Encode.FindCommand | skills/protocol_encode_skill/scripts/dvk_encode.py:83-95 | None exactly when no command matches; a found command is in the list and matches |
| Encode.FindCommandStops | skills/protocol_encode_skill/scripts/dvk_encode.py:83-95 | the search stops at the first command that matches or raises, and all earlier ones do not match |
| Encode.EncodeField | skills/protocol_encode_skill/scripts/dvk_encode.py:103-111 | a field succeeds only when its name is among the parameters, and then it is that value's encoding |
| Encode.BuildPayload | skills/protocol_encode_skill/scripts/dvk_encode.py:98-113 | succeeds exactly when every field encodes, and then every field's value was given |
| Encode.BuildPayloadOne | skills/protocol_encode_skill/scripts/dvk_encode.py:103-111 | one field's payload is its value's encoding, and a missing parameter raises |
| Encode.BuildPayloadAppend | skills/protocol_encode_skill/scripts/dvk_encode.py:103-111 | the payload of `a + b` is the payload of `a` followed by that of `b` |
| Encode.BuildPayloadIgnoresUndeclared | skills/protocol_encode_skill/scripts/dvk_encode.py:103-111 | a parameter that no field names does not change the payload |
| Encode.EncodeChecksum | skills/protocol_encode_skill/scripts/dvk_encode.py:157-169 | succeeds exactly for an unsigned format, and the bytes read back as the value modulo the width |
| Encode.ChecksumReadBack | skills/protocol_encode_skill/scripts/dvk_encode.py:157-169 | a checksum appended to any body reads back from the end as the value modulo the width |
| Encode.LengthLayout | skills/protocol_encode_skill/scripts/dvk_encode.py:187-199 | an absent length is fixed with uint8, an object is used, anything else raises |
| Encode.LengthBytes | skills/protocol_encode_skill/scripts/dvk_encode.py:193-199 | only the dynamic mode writes a length field, holding the payload length in the field's type |
| Encode.MsgIdByte | skills/protocol_encode_skill/scripts/dvk_encode.py:202 | the message id is written as one byte, its integer value modulo 256 |
| Encode.FrameBody | skills/protocol_encode_skill/scripts/dvk_encode.py:179-205 | the body is header, length field, message id byte and payload, in that order and nothing else |
| Encode.ChecksumOver | skills/protocol_encode_skill/scripts/dvk_encode.py:221-236 | sum8 sums the clamped range modulo 256, a CRC is CrcCompute over the clamped range, any other type raises |
| Encode.ChecksumEndClamped | skills/protocol_encode_skill/scripts/dvk_encode.py:219-227 | any range end at or past the body's last byte gives the same checksum |
| Encode.FrameChecksumValue | skills/protocol_encode_skill/scripts/dvk_encode.py:209-236 | a missing type or range end raises; otherwise the range is resolved against the length of the final frame |
| Encode.BuildFrame | skills/protocol_encode_skill/scripts/dvk_encode.py:172-240 | without a checksum the frame is the body; with one it succeeds exactly when the checksum computes in an unsigned format, and is the body followed by the encoded checksum |
| Encode.VerifyAccepts | dvk/checksums.py:203-217 | a frame whose stored value equals the computed checksum verifies |
| Encode.ChecksummedVerifies | skills/protocol_encode_skill/scripts/dvk_encode.py:208-238 | a body with its checksum appended verifies under the same spec when the range lies inside the body |
| Encode.BuildFrameVerifies | skills/protocol_encode_skill/scripts/dvk_encode.py:172-240 | every checksummed frame the encoder builds is accepted by verify_checksum |
| Select.KeyOf | skills/transport_session_skill/scripts/transport_session.py:255-267 | the three flags always map to one of the six selector keys |
| Select.KeyOfInjective | skills/transport_session_skill/scripts/transport_session.py:255-267 | two flag settings give the same key exactly when they agree, where the brightness width matters only with brightness |
| Select.FlagBit | skills/transport_session_skill/scripts/transport_session.py:251-253 | a negative bit number raises |
| Select.HighBitReadsInvert | skills/transport_session_skill/scripts/transport_session.py:251-253 | a bit number of 8 or more reads as 0, so the flag is the inversion setting |
| Select.IfKey | skills/transport_session_skill/scripts/transport_session.py:245-267 | succeeds exactly when the three bit numbers are non-negative, and gives one of the six keys |
| Select.LenBitIrrelevant | skills/transport_session_skill/scripts/transport_session.py:255-267 | without brightness, the brightness-width bit does not change the key |
| Select.SelectorBits | skills/transport_session_skill/scripts/transport_session.py:245-250 | the bit numbers default to 0, 1 and 2 and the inversions to their truthiness; a non-integer bit number raises |
| Select.FirstNamed | skills/transport_session_skill/scripts/transport_session.py:268-270 | the first frame spec with the name, or None when no spec has it |
| Select.Sample | skills/transport_session_skill/scripts/transport_session.py:234-238 | a prefix of the data of at most the sample size, and the whole data when it is shorter |
| Select.IfByteAt | skills/transport_session_skill/scripts/transport_session.py:239-244 | no header gives None; the byte at the header plus the offset when it is in the sample; past the end, None; Python's negative index otherwise |
| Select.SelectByIf | skills/transport_session_skill/scripts/transport_session.py:233-270 | only the if_bits_v1 selector selects; a bad first header raises; a missing header gives None whatever the offset holds; a selected spec is the first with the name mapped by one of the six keys |
| Select.ChooseFrameAsWritten | skills/transport_session_skill/scripts/transport_session.py:227-274 | the chosen index is in range, and an empty frame list raises |
| Select.UnknownNameFallsBack | skills/transport_session_skill/scripts/transport_session.py:271-274 | as written, an unknown frame name silently selects the first frame |
| Select.ChooseFrame | skills/transport_session_skill/scripts/transport_session.py:227-274 | a named choice succeeds exactly when some spec has that name, and picks the first one; without a name it is the written choice |
| Semantics.HexToBytes | dvk/semantics.py:23-29 | a string gives its `fromhex` bytes, anything else None |
| Semantics.HexFieldReadsBack | dvk/semantics.py:23-29 | the hex text of any bytes reads back as those bytes |
| Semantics.AsInt | dvk/semantics.py:32-41 | an integer is kept, a string of decimal digits is parsed, anything else is None |
| Semantics.AsIntAgreesWithInt | dvk/semantics.py:32-41 | where `_as_int` gives a value `int()` gives the same one, and a number's decimal text reads back as the number |
| Semantics.IntSetting | dvk/semantics.py:63-82 | a missing key gives the default, and None raises |
| Semantics.TripletBitsOf | dvk/semantics.py:63-77 | no settings give the default bit layout, and a None mask raises |
| Semantics.UnpackTriplet | dvk/semantics.py:111-120 | succeeds exactly when every configured shift is non-negative |
| Semantics.DefaultTriplet | dvk/semantics.py:111-120 | with the default layout, distance is b2 × 64 + b1 / 4, intensity (b1 mod 4) × 64 + b0 / 4, and the flag b0 mod 2 |
| Semantics.UnpackPackTriplet | dvk/semantics.py:111-120 | packing a point and unpacking it with the default layout gives the point back |
| Semantics.TripletsFrom | dvk/semantics.py:107-120 | reads min(count, len / 3) points, each the unpacking of its three bytes, and raises only on a negative shift with at least one point |
| Semantics.TripletsRoundTrip | dvk/semantics.py:107-120 | a packed point list reads back as the same list |
| Semantics.UnitBytes | dvk/semantics.py:168-173 | a point takes 2, 3 or 4 bytes according to the brightness mode |
| Semantics.DnPointAt | dvk/semantics.py:204-217 | brightness is present exactly when the mode has it, and the u8 brightness is the third byte |
| Semantics.DnPointsFrom | dvk/semantics.py:203-217 | reads min(count, len / unit) points, each the reading of its unit |
| Semantics.DnRoundTrip | dvk/semantics.py:203-217 | a packed dn point list reads back as the same list |
| Semantics.DefaultDnDistance | dvk/semantics.py:206-208 | with the default mask, distance is the little-endian 16-bit word modulo 0x4000 |
| Semantics.Copied | dvk/semantics.py:134-135 | a row copies each included field's value from its frame, None when absent |
| Semantics.FrameInput | dvk/semantics.py:89-101 | a frame with another name, a missing or non-hex payload, a non-positive count or a missing angle field is skipped; otherwise it offers its payload bytes and a positive count |
| Semantics.TripletRows | dvk/semantics.py:89-136 | a skipped frame gives no rows; otherwise min(count, len / 3) rows numbered from 0, raising on a negative angle shift or a negative bit shift; row `j` holds the point unpacked from payload bytes `3j`, `3j+1` and `3j+2`, the frame's `_frame_idx` and `frame.get` of each included field |
| Semantics.DnRows | dvk/semantics.py:177-233 | a skipped frame gives no rows; otherwise min(count, len / unit) rows numbered from 0; row `j` holds the reading of the `j`-th unit of the payload, which lies wholly inside it, the frame's `_frame_idx` and `frame.get` of each included field |
| Semantics.AllTripletRows | dvk/semantics.py:89-136 | the transform succeeds exactly when every frame's rows do |
| Semantics.AllTripletRowsAppend | dvk/semantics.py:89-136 | the rows of `a + c` are those of `a` followed by those of `c` |
| Semantics.AllDnRowsAppend | dvk/semantics.py:177-233 | the rows of `a + c` are those of `a` followed by those of `c` |
| Semantics.Produced | dvk/semantics.py:138-140 | the transform counts as applied exactly when it produced rows |
| Semantics.TransformTriplet | dvk/semantics.py:56-140 | a bad bit setting or right_shift raises; otherwise it succeeds exactly when every frame's rows do, and is applied exactly when there are rows |
| Semantics.TransformDn | dvk/semantics.py:143-237 | an unknown brightness mode gives nothing; otherwise it succeeds exactly when the distance mask parses, and is applied exactly when there are rows |
| Semantics.ApplySemantics | dvk/semantics.py:240-259 | no transform passes the records through; the first transform decides, by its type, which transform runs, and an unknown type passes through |
| Semantics.OnlyFirstTransform | dvk/semantics.py:249-257 | transforms after the first do not matter |
| Ring.CreateRing | dvk/shm.py:66-84 | a positive capacity gives an empty ring of that many zeroed slots; any other capacity raises |
| Ring.Kept | dvk/shm.py:158-160 | only the last `capacity` points are kept, in order |
| Ring.StartSlot | dvk/shm.py:156-161 | writing starts at slot 0 when the points fill the ring, and at the write index otherwise |
| Ring.WritePoints | dvk/shm.py:151-173 | an empty write changes nothing; otherwise the sequence number goes up by one and the write index moves past the kept points modulo capacity |
| Ring.WriteSlots | dvk/shm.py:158-170 | the kept points land in consecutive slots from the start slot, wrapping around, and every other slot is unchanged |
| Ring.ReadLatest | dvk/shm.py:176-186 | returns min(max_points, capacity) slots, the ones just before the write index, in order |
| Ring.ReadAfterWrite | dvk/shm.py:151-186 | reading up to the number of points kept after a write gives the last points written, in order |
| Report.CodeSpans | skills/report_skill/scripts/dvk_report.py:251-256 | the reference rendering of a line's code spans leaves no backtick |
| Report.ReplaceCode | skills/report_skill/scripts/dvk_report.py:251-256 | the replace-first loop gives exactly the reference rendering, alternating `<code>` and `</code>` |
| Report.ImageMatch | skills/report_skill/scripts/dvk_report.py:232-236 | a match splits the line into `![alt](src)` with no `]` in alt and no `)` in src |
| Report.ImageMatchFinds | skills/report_skill/scripts/dvk_report.py:230-236 | every such image line is matched with its alt and src |
| Report.CloseTable | skills/report_skill/scripts/dvk_report.py:241-249 | an open table is closed with one `</table>` line, and nothing happens otherwise |
| Report.TableLine | skills/report_skill/scripts/dvk_report.py:220-229 | a table line leaves the converter inside a table and only appends output |
| Report.Step | skills/report_skill/scripts/dvk_report.py:213-257 | one Markdown line only appends output |
| Report.Convert | skills/report_skill/scripts/dvk_report.py:212-257 | converting lines only appends output |
| Report.HtmlLines | skills/report_skill/scripts/dvk_report.py:191-265 | the page starts with the doctype and ends with `</body>` and `</html>` |
| Report.GenerateHtml | skills/report_skill/scripts/dvk_report.py:191-265 | the joined page starts with the doctype line and ends with `</html>` |
| Report.Headings | skills/report_skill/scripts/dvk_report.py:214-219 | `#`, `##` and `###` lines become h1, h2 and h3 |
| Report.ThreeLineTable | skills/report_skill/scripts/dvk_report.py:220-229 | a header, separator and data line open a table with one header row and one data row |
| Report.HeaderRow | skills/report_skill/scripts/dvk_report.py:220-229 | the first table line opens the table with a header row |
| Report.DataRow | skills/report_skill/scripts/dvk_report.py:220-229 | later table lines add data rows |
| Report.SeparatorRow | skills/report_skill/scripts/dvk_report.py:222-224 | a separator line adds no row |
| Report.ConvertBalanced | skills/report_skill/scripts/dvk_report.py:212-257 | table tags stay balanced line by line |
| Report.TablesClosed | skills/report_skill/scripts/dvk_report.py:191-265 | every table opened in the page is closed |
| Report.PageTablesClosed | skills/report_skill/scripts/dvk_report.py:191-265 | the same, for any style block without table tags |
| Values.Set | dvk/semantics.py:126-136 | setting a key gives it the value, keeps the other keys, appends a new key last and keeps keys distinct |
| Values.IntOf | dvk/semantics.py:82 | `int()` of an integer is itself, of a decimal string its value, and of None an error |
| PyStr.DecimalRoundTrip | dvk/semantics.py:32-41 | the decimal text of a number is all digits and parses back to the number |
| PyStr.FromHexToHex | dvk/semantics.py:23-29 | `bytes.fromhex` of the hex text of any bytes gives them back |
| PyBytes.ToFromLE | dvk/checksums.py:85-98 | the little-endian bytes of a reading give the bytes back |
| PyBytes.ToFromBE | dvk/checksums.py:85-98 | the big-endian bytes of a reading give the bytes back |
| PyBytes.FindFrom | skills/protocol_decode_skill/scripts/dvk_decode.py:205-207 | the result is -1 exactly when the pattern does not occur from the start position, and otherwise it is the first occurrence |

## Left out

- I/O: command-line parsing, the `cmd_*` drivers, reading files and sockets, JSON/YAML loading, clocks (`time_ns`, timestamps) and the `SharedMemory` mapping itself are outside the model. A timestamp is `None`, and file contents are byte sequences.
- Decode.DecodeFramesFile: float field types and float length fields are excluded by `requires NoFloatFields` and `NoFloatLength` (`struct` `<f`/`>f` decoding is not modelled). The `field_names` list and the file read are not modelled either.
- Decode.DecodeWith, Decode.DecodeFrame, Codec.ParseValueReads: float32 fields (`float32_le`/`float32_be`) are excluded by `requires`, for the same reason.
- Lengths.DecoderFrameLength, Lengths.FieldFrameLength: a float-typed length field is excluded by `requires NoFloatLength`.
- Codec.EncodeValue, Encode.EncodeField, Encode.BuildPayload: float payload types are excluded by `requires NoFloatPayload` (no IEEE-754 packing).
- Encode.LengthBytes, Encode.FrameBody, Encode.BuildFrame: a dynamic length field of float type, which `build_frame` would pack as an IEEE-754 float, is excluded by `requires EncodableLength`, for the same reason.
- Semantics.AsInt: Python's `_as_int` also maps `bool` to 0/1 and truncates a float. `Value` has no bool or float, so these cases do not arise in the model.
- PyStr.PyIntOfStr, Headers.StrictByte, Headers.ParseHexBytes, Semantics.AsInt: only ASCII digits are digits. Python's `int()` and `str.isdigit()` also accept other Unicode decimal digits (a token `"0x١١"` parses as 0x11 in Python and is rejected here).
- Ring.CreateRing, Ring.WritePoints: the control block's `<u4` capacity and write index and `<u8` sequence number are unbounded naturals. A wrap-around after 2^64 writes is not modelled, and the point record is a type parameter rather than the NumPy dtype.
- Semantics.TripletRows, Semantics.DnRows: a row is a record, not a dict. When `include_frame_fields` names a computed column (`_point_idx`, `angle_deg`, `distance_raw`, `intensity`, …), Python overwrites that column with the frame value (dvk/semantics.py:126-135, 223-232). The model keeps both.
- ChecksumSpec.IsEmpty: a checksum object holding only keys outside the model counts as empty. Python finds such a dict truthy and calls `verify_checksum`, which then raises.
- Semantics.TransformTriplet: the float parses of `scale_div` and `offset` and the angle arithmetic (dvk/semantics.py:83-84, 103-105, 122-124) are not modelled, so rows carry no `angle_deg` column. The `right_shift` parse and its negative-shift error are modelled.
- Semantics.TransformDn: the float parses of the angle settings and speed, their ZeroDivisionError, and the angle and speed_rps columns (dvk/semantics.py:151-160, 191-201) are not modelled.
- Framing.LiveFrames: a finite list of chunks stands in for the endless read loop, and an empty chunk is skipped rather than waited on.
- Framing.FrameStream: the `FramingStats` counters are part of the framer state. The JSON/CSV writers are not modelled.
- Detect.PickBySniff: banner and regex detection, `score_to_confidence`, `choose_best` and the candidate listing from the filesystem are not modelled.
- Report.GenerateHtml: `generate_markdown_report` and the analysis summary it formats are not modelled. The CSS block is a parameter of `Page`.
- Ring.WritePoints: the `last_write_ns` clock stamp (dvk/shm.py:173) is not modelled.
- Semantics.Produced: the `reason` text of a `SemanticResult` is not modelled.
- JSON types: every key of the protocol description is assumed to hold its documented JSON type. Integers are expected for offsets, lengths, `total_length`, `value`, `overhead_bytes`, `unit_bytes`, `store_at`, `range.from`/`to`, the CRC parameters and the slice bounds. Strings are expected for type names, `mode` and `store_format`, and booleans for `refin`/`refout`. Objects are expected for `length.field`, `checksum`, `range` and `params`. A value of another type, such as a null `length.field` (`AttributeError` in Python) or a string `range.from` (`TypeError`), is not modelled. The exceptions are `frame.header`, `frame.length` and a field's `length`: `HeaderJson`, `LengthJson` and `FieldLength` model every JSON type they can hold.

## Findings

| source | as written | input that shows it | evidently intended | confidence | as-written member | corrected member |
|---|---|---|---|---|---|---|
| skills/transport_session_skill/scripts/transport_session.py:190-197 | a resolved total length of 0 cuts an empty frame, and `del buf[:0]` removes nothing, so the inner loop repeats forever | fixed length 0, header `[0xAA]`, input chunks `[[0xAA]]` | stop (wait for more data) when the total length is not positive, as the detector's `total_len <= 0` check does | not executed | Framing.FrameStreamAsWritten, shown by Framing.ZeroLengthExample | Framing.FrameStream |
| skills/transport_session_skill/scripts/dvk_live.py:193-197 | the same empty cut makes the live reader spin without reading more input | `LiveFixed(0)`, header `[0xAA]`, input chunks `[[0xAA]]` | treat a non-positive length as "wait for more bytes" | not executed | Framing.LiveFramesAsWritten, shown by Framing.LiveZeroLengthExample | Framing.LiveFrames |
| skills/transport_session_skill/scripts/transport_session.py:271-274 | `frame_spec = frames[0]` replaces a failed name lookup before the "Frame not found" check, so that exit is unreachable and an unknown `--frame-name` silently uses the first frame | frame specs named `["a"]`, `--frame-name b` | exit with "Frame not found" when a given name matches no frame | not executed | Select.ChooseFrameAsWritten, shown by Select.UnknownNameFallsBack | Select.ChooseFrame |
