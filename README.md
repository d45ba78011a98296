# AVCC to Annex B conversion, modelled in Dafny

`avcc_2_annexb` is a small H.264 tool with two modes. Both write
`annexb.h264`.

- **Configuration-record mode.** The tool reads an AVCC decoder
  configuration record (AVCDecoderConfigurationRecord, section 5.2.4.1 of
  ISO/IEC 14496-15). It writes every SPS and then the PPS entries, each
  in Annex B form: the start code 00 00 00 01, then the payload. The
  record lists its PPS entries after a PPS count, but the tool's PPS loop
  runs as many times as the SPS count. The model writes every PPS listed,
  and keeps the loop as written beside it (see "Findings").
- **Stream mode.** The tool walks an AVCC stream. In that stream each NAL
  unit follows its size, written as a 4-byte big-endian field. The walk
  overwrites every size field in place with the start code and reports
  the header of every unit. It then appends the whole buffer to the
  output.

The model has five modules:

- `Bytes`: bytes, big-endian 16- and 32-bit fields and their round trips,
  and generic sequence lemmas.
- `Framing`: the two framings of a list of units. Annex B uses a start
  code (section B.1 of ITU-T H.264). The length-prefixed form uses a 4-byte
  size in a stream and a 2-byte size in a configuration record. The module
  also says where each unit sits in each framing.
- `NalHeader`: `parase_nalu_hdr`. It splits the one-byte NAL header
  (section 7.3.1 of ITU-T H.264) into its three fields and classifies type
  codes 1..12. Every other code is "Unknow Slice".
- `AvccConfig`: `parase_avcc_extra`, as a method over an `array` that
  copies the two parameter-set lists with loops. It is proved against a
  decoding function `Decode` with an encoder `Encode` beside it.
- `AvccStream`: the stream branch of `main`. It is a method that rewrites
  the buffer in place. It is proved against a function `Convert`
  defined by splitting the stream into units.

The output file is modelled as a byte sequence. In stream mode it is the
sink's old contents plus the appended buffer. In configuration-record mode
it is a fresh sequence, because the file is recreated. What the tool prints
is modelled as a log of `UnitLog` values, or is left out.

## Model

| member | source | states |
|---|---|---|
| NalHeader.Decode | vpcc_attr_disassemplerV1/avcc_2_annexb.cpp:45-57 | Every header byte decodes without failure. The three fields are within their 1-, 2- and 5-bit widths, and they pack back to exactly the byte read. The class is Unknown exactly when the type code is outside 1..12. |
| NalHeader.DecodePack | vpcc_attr_disassemplerV1/avcc_2_annexb.cpp:45-49 | Packing any in-range header and decoding the byte gives the header back. With `Decode`, this makes header bytes and headers two views of the same thing. |
| NalHeader.Classify | vpcc_attr_disassemplerV1/avcc_2_annexb.cpp:57-98 | Type codes 1..12 get a named class whose code is that type. Every other code is Unknown, the `default` branch. |
| NalHeader.KindCode | vpcc_attr_disassemplerV1/avcc_2_annexb.cpp:8-19 | Every named class stands for a code in 1..12. |
| NalHeader.ClassifyKindCode | vpcc_attr_disassemplerV1/avcc_2_annexb.cpp:8-19 | Classifying the code of a named class gives that class back, so classes and the codes 1..12 match one to one. |
| NalHeader.KindName | vpcc_attr_disassemplerV1/avcc_2_annexb.cpp:57-98 | The printed label is "Unknow Slice" exactly for the Unknown class. No named type is reported as unknown. |
| AvccConfig.SpsCount | vpcc_attr_disassemplerV1/avcc_2_annexb.cpp:159-161 | The SPS count is the low five bits of the byte after the header. It is below 32, and the masked-off high bits are the rest of the byte. |
| AvccConfig.LengthSizeMinusOne | vpcc_attr_disassemplerV1/avcc_2_annexb.cpp:110 | lengthSizeMinusOne is the low two bits of the fifth byte, as the format describes it. |
| AvccConfig.LengthSizeFieldAsWritten | vpcc_attr_disassemplerV1/avcc_2_annexb.cpp:127-128 | The `nalu_len` bit field, laid out from the least significant bit after six reserved bits, reads the top two bits. |
| AvccConfig.LengthSizeFieldCounterexample | vpcc_attr_disassemplerV1/avcc_2_annexb.cpp:127-128 | On every byte with the six reserved bits set, as the format requires, the as-written field reads 3, whatever the length size. The two readings agree on 0xFF and disagree on 0xFC, where the format says 0. |
| AvccConfig.ParseSets | vpcc_attr_disassemplerV1/avcc_2_annexb.cpp:163-175 | Reading `count` size-prefixed entries yields exactly `count` entries and never grows the remaining input. The only failure is a truncated record. |
| AvccConfig.ParseSetsLayout | vpcc_attr_disassemplerV1/avcc_2_annexb.cpp:165-173 | A successful read consumes exactly the encoding of the entries it returns: the input is their 2-byte-size framing followed by the rest. |
| AvccConfig.ParseSetsOfBytes | vpcc_attr_disassemplerV1/avcc_2_annexb.cpp:165-173 | Conversely, reading the framing of any entry list that fits 16-bit sizes gives those entries back in order, followed by further entries read from what comes after. |
| AvccConfig.SetsBytesConcat | vpcc_attr_disassemplerV1/avcc_2_annexb.cpp:163-190 | Framing two lists one after the other is framing their concatenation. |
| AvccConfig.ParseAll | vpcc_attr_disassemplerV1/avcc_2_annexb.cpp:163-175 | Reading exactly as many entries as an encoded list holds returns that list and leaves the following bytes untouched. |
| AvccConfig.DecodeWith | vpcc_attr_disassemplerV1/avcc_2_annexb.cpp:141-190 | Fewer than 7 bytes fail as a truncated header. On success, the SPS list has the masked SPS count of entries, at most 31. The PPS list has as many entries as the loop bound chosen, the PPS count or the SPS count. |
| AvccConfig.Decode | vpcc_attr_disassemplerV1/avcc_2_annexb.cpp:141-190 | The record as the format lays it out, with the PPS loop bounded by the PPS count (the converter bounds it by the SPS count; see `DecodeWith`). Short input fails. On success there are at most 31 SPS entries and exactly PPS-count PPS entries. |
| AvccConfig.DecodeLayout | vpcc_attr_disassemplerV1/avcc_2_annexb.cpp:159-176 | Every record that decodes is well formed. Its encoding is a prefix of the input. The SPS count byte is at offset 5, and the PPS count is the byte right after the last SPS entry. |
| AvccConfig.DecodeEncode | vpcc_attr_disassemplerV1/avcc_2_annexb.cpp:103-120 | Every well-formed record, followed by any bytes, decodes to itself. This is the round trip of the record layout. |
| AvccConfig.CopySets | vpcc_attr_disassemplerV1/avcc_2_annexb.cpp:163-175 | The loop over one list reads exactly what `ParseSets` reads. On success the cursor ends just past the last entry, and the output holds every entry as start code plus payload, in order. |
| AvccConfig.ParseAvccExtra | vpcc_attr_disassemplerV1/avcc_2_annexb.cpp:133-195 | A missing buffer and a buffer under 7 bytes fail before the output is opened, so the output stays as it was. Otherwise the result is `Decode` of the buffer. On success the output is every SPS and then every PPS in Annex B form; on failure it is empty. |
| AvccConfig.ParseRecord | vpcc_attr_disassemplerV1/avcc_2_annexb.cpp:159-190 | Once the header length is checked, the result is `Decode` of the buffer. On success the output is the Annex B form of the SPS list followed by the PPS list; on failure it is empty. |
| AvccConfig.ParsePps | vpcc_attr_disassemplerV1/avcc_2_annexb.cpp:176-190 | After the SPS entries, the method reads the PPS count and the PPS entries. The result is still `Decode` of the whole buffer, and the output extends the SPS output with the PPS output. |
| AvccConfig.PpsLoopBoundAsWritten | vpcc_attr_disassemplerV1/avcc_2_annexb.cpp:176-178 | With the PPS loop bounded by the SPS count, a record with at least as many PPS as SPS entries loses every PPS after the first SPS-count ones. A record with fewer PPS entries runs past the end. |
| AvccConfig.PpsLoopBoundCounterexample | vpcc_attr_disassemplerV1/avcc_2_annexb.cpp:176-178 | A well-formed record with one SPS and two PPS entries. Bounded by the SPS count, it decodes with its second PPS dropped. Bounded by the PPS count, it decodes to itself. |
| AvccStream.SplitUnits | vpcc_attr_disassemplerV1/avcc_2_annexb.cpp:261-271 | The cursor's walk over the stream ends either at the end of the stream or at a size field whose unit does not fit. |
| AvccStream.SplitLayout | vpcc_attr_disassemplerV1/avcc_2_annexb.cpp:261-270 | The walk loses nothing: the stream is the 4-byte-size framing of the units walked, followed by the bytes where the walk stopped. |
| AvccStream.SplitAvccFrame | vpcc_attr_disassemplerV1/avcc_2_annexb.cpp:261-270 | Conversely, framing any units and following them with bytes where a walk stops walks back to exactly those units and those bytes. |
| AvccStream.WellFormedIsFramed | vpcc_attr_disassemplerV1/avcc_2_annexb.cpp:261-270 | A stream is walked to its end exactly when it is the framing of its units. The walk then ends at the stream's length. |
| AvccStream.Convert | vpcc_attr_disassemplerV1/avcc_2_annexb.cpp:261-271 | Conversion keeps the buffer's length, so the converted buffer has the same size as the input. |
| AvccStream.ConvertChangesOnlySizeFields | vpcc_attr_disassemplerV1/avcc_2_annexb.cpp:264-267 | Every byte the conversion changes lies inside the 4-byte size field of some unit. Payloads and the bytes after the walk stay as they were. |
| AvccStream.ConvertFramed | vpcc_attr_disassemplerV1/avcc_2_annexb.cpp:261-271 | Converting the length-prefixed framing of any units gives their Annex B framing. |
| AvccStream.LogOf | vpcc_attr_disassemplerV1/avcc_2_annexb.cpp:269 | A unit's report carries its size and has a decoded header exactly when the unit has a first byte. |
| AvccStream.Logs | vpcc_attr_disassemplerV1/avcc_2_annexb.cpp:269 | There is one report per unit. |
| AvccStream.LogsAt | vpcc_attr_disassemplerV1/avcc_2_annexb.cpp:269 | The k-th report is that of the k-th unit, so the reports come in stream order. |
| AvccStream.WriteStartCode | vpcc_attr_disassemplerV1/avcc_2_annexb.cpp:264-267 | The four bytes at the cursor become 00 00 00 01 and every other byte of the buffer stays as it was. |
| AvccStream.ConvertStream | vpcc_attr_disassemplerV1/avcc_2_annexb.cpp:257-281 | The buffer becomes `Convert` of its old contents. The reports are those of the units walked. The status says whether the walk reached the end, and otherwise gives the offset of the size field it stopped at. The sink gets the converted buffer appended only when the walk reached the end. |
| AvccStream.Stopped | vpcc_attr_disassemplerV1/avcc_2_annexb.cpp:261 | Where the walk stops, the units converted so far are all the units of the stream, and the buffer is the full conversion. |
| AvccStream.Step | vpcc_attr_disassemplerV1/avcc_2_annexb.cpp:262-270 | One pass of the loop: reading a size field that fits, writing the start code and reporting the unit extends the walk by exactly that unit and its report. |
| Framing.AnnexBUnit | vpcc_attr_disassemplerV1/avcc_2_annexb.cpp:168-170 | A unit in Annex B form is four bytes longer than its payload. It starts with the start code, and its payload follows unchanged. |
| Framing.AnnexBConcat | vpcc_attr_disassemplerV1/avcc_2_annexb.cpp:163-190 | The Annex B form of two lists one after the other is the two Annex B forms concatenated, as the SPS output followed by the PPS output. |
| Framing.AnnexBLayout | vpcc_attr_disassemplerV1/avcc_2_annexb.cpp:264-267 | In the Annex B stream, unit k starts at its offset with the start code, and its payload follows byte for byte. |
| Framing.AvccFrameFieldAt | vpcc_attr_disassemplerV1/avcc_2_annexb.cpp:262 | In the length-prefixed stream, the four bytes at unit k's offset are its size as a big-endian field. |
| Framing.AvccFramePayloadAt | vpcc_attr_disassemplerV1/avcc_2_annexb.cpp:268-270 | In the length-prefixed stream, unit k's payload follows its size field byte for byte. |
| Framing.FramingLengths | vpcc_attr_disassemplerV1/avcc_2_annexb.cpp:281 | The two framings of the same units have the same length. So the buffer written out after the in-place rewrite is as long as the one read. |
| Framing.FramingsDifferOnlyInPrefixes | vpcc_attr_disassemplerV1/avcc_2_annexb.cpp:264-267 | The two framings of the same units differ only inside the 4-byte prefixes. |
| Bytes.Be16OfBigEndian | vpcc_attr_disassemplerV1/avcc_2_annexb.cpp:165 | Writing a 16-bit size big-endian and reading it back gives the size. |
| Bytes.BigEndianOfBe16 | vpcc_attr_disassemplerV1/avcc_2_annexb.cpp:165 | Reading two bytes as a 16-bit big-endian size and writing it back gives the same two bytes. |
| Bytes.Be32OfBigEndian | vpcc_attr_disassemplerV1/avcc_2_annexb.cpp:262 | Writing a 32-bit size big-endian and reading it back gives the size. |
| Bytes.BigEndianOfBe32 | vpcc_attr_disassemplerV1/avcc_2_annexb.cpp:262 | Reading four bytes as a 32-bit big-endian size and writing it back gives the same four bytes. |

## Left out

- Command-line handling in `main` (lines 200-248): argument parsing, mode selection, opening, sizing and reading the input file, and the check on the read count. The input is a given buffer, and its length is the array's length.
- File I/O: `fopen`, `fseek`, `fwrite` and `fclose`. The output file is a byte sequence. A failing `fopen` is not modelled, and neither is a short `fwrite`.
- The printed dump: the configuration header fields, the sizes and the hex bytes of every entry, and the debug lines. In stream mode the per-unit report is kept as `UnitLog`: the size and the decoded header. The printed label of a header is `NalHeader.KindName`.
- `ntohs`/`ntohl` through unaligned pointer casts: sizes are combined explicitly from bytes, most significant first (`Bytes.Be16`, `Bytes.Be32`), whatever the host's byte order.
- Bit-field layout: the H.264 header fields are taken with division and remainder. That is the layout `H264Hdr` gets when fields are allocated from the least significant bit.
- The 1024-byte scratch array `extra_to_anexb` (line 139): only its first four bytes, the start code, are ever written out.
- The parameter-set payloads (SPS and PPS syntax) and the NAL unit payloads are carried as opaque bytes and not decoded.
- AvccConfig.ParseAvccExtra: the PPS loop runs `ppsCount` times, so every PPS listed is written; the loop at line 178 runs as many times as the SPS count. That as-written bound is `AvccConfig.DecodeWith(_, BySpsCount)`, whose effect `AvccConfig.PpsLoopBoundAsWritten` states. The same holds for `AvccConfig.ParseRecord` and `AvccConfig.ParsePps`.
- AvccConfig.ParseAvccExtra: the source has no bounds checks inside the record. A size or count past the end makes it read beyond the buffer, which is undefined behaviour. The model stops with `TruncatedRecord` and an empty output at that point, so the output holds no partial record. The source may already have written some entries before the overrun.
- AvccStream.ConvertStream: the source has no bounds checks either. When a unit's size runs past the end, it still overwrites that field (reading and writing past the end when fewer than four bytes remain), steps past the end, and appends the buffer. The model instead stops with `TruncatedUnit` at that field, leaves it unwritten, and leaves the sink unchanged.
- AvccStream.ConvertStream: `nal_len` is a signed 32-bit `int` in the source, so a size field of 2^31 or more becomes negative and moves the cursor backwards. The model reads the field as an unsigned 32-bit size.
- AvccStream.LogOf: for a unit of size 0 the source still decodes the byte after the size field. That byte belongs to the next unit or lies past the end. The model reports no header for an empty unit.
- The stream's length fields are always 4 bytes, as in the source. The configuration record's lengthSizeMinusOne is decoded but never used to size them.

## Findings

| source | as written | input that shows it | evidently intended | confidence | as-written member | corrected member |
|---|---|---|---|---|---|---|
| vpcc_attr_disassemplerV1/avcc_2_annexb.cpp:178 | The PPS loop runs `sps_cnt` times, not `pps_cnt` times. | A record with one SPS and two PPS entries (`AvccConfig.OneSpsTwoPps`): only the first PPS is written. With more SPS than PPS entries the loop reads past the record. | Loop `pps_cnt` times, so that every PPS listed is written. | high, not executed | AvccConfig.PpsLoopBoundCounterexample | AvccConfig.DecodeEncode |
| vpcc_attr_disassemplerV1/avcc_2_annexb.cpp:127-128 | `AvccExtraHdr` declares `reserved0 : 6` before `nalu_len : 2`. When bit fields are allocated from the least significant bit, as `H264Hdr` at lines 45-49 relies on, `nalu_len` reads the top two bits of the fifth byte. | Fifth byte 0xFC, a 1-byte length size with the reserved bits set: the struct reads `nalu_len` 3, while lengthSizeMinusOne is 0. Every byte with the reserved bits set reads 3, so every length size is reported as 4. | lengthSizeMinusOne is the low two bits (line 110). The fields should be declared in the other order. | medium (depends on the compiler's bit-field order), not executed | AvccConfig.LengthSizeFieldCounterexample | AvccConfig.LengthSizeMinusOne |
