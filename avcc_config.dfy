/** The AVCC decoder configuration record (AVCDecoderConfigurationRecord,
    section 5.2.4.1 of ISO/IEC 14496-15) and its conversion to Annex B:
    a 5-byte header (version, profile, compatibility, level, then six
    reserved bits over lengthSizeMinusOne), a byte whose low five bits count
    the SPS entries, the SPS entries (2-byte big-endian size, then payload),
    a byte counting the PPS entries and the PPS entries in the same form.
    Every parameter set is written to the output as 00 00 00 01 + payload. */
module AvccConfig {
  import opened Bytes
  import opened Framing

  datatype ParseError =
    | MissingBuffer    // no buffer at all
    | TruncatedHeader  // fewer than 7 bytes: header, SPS count and one more byte
    | TruncatedRecord  // a size field, a payload or the PPS count lies past the end

  /** A decoded record. The header bytes are kept raw: the converter only
      reports them. */
  datatype Config = Config(
    version: byte,
    profile: byte,
    compatibility: byte,
    level: byte,
    lengthSizeByte: byte,  // reserved bits and lengthSizeMinusOne
    spsCountByte: byte,    // reserved bits and the SPS count
    sps: seq<seq<byte>>,
    ppsCount: byte,
    pps: seq<seq<byte>>)

  /** The record may not be shorter than this (header, SPS count, one more byte). */
  const MinRecordSize: nat := 7

  /** The header struct's size: the SPS count byte follows it. */
  const HeaderSize: nat := 5

  /** The SPS count: the low five bits of its byte, so never above 31. */
  function SpsCount(b: byte): (n: nat)
    ensures n < 32 && b == b / 32 * 32 + n
  {
    b % 32
  }

  /** lengthSizeMinusOne: the low two bits of the fifth header byte; a
      stream's length fields are this plus one bytes long. */
  function LengthSizeMinusOne(b: byte): (n: nat)
    ensures n < 4 && b == b / 4 * 4 + n
  {
    b % 4
  }

  /** The `nalu_len` bit field as the header struct lays it out when bit
      fields are allocated from the least significant bit: the top two bits. */
  function LengthSizeFieldAsWritten(b: byte): (n: nat)
    ensures n < 4 && b == n * 64 + b % 64
  {
    b / 64
  }

  /** The format requires the six reserved bits to be set, and on every such
      byte the as-written field reads 3, whatever lengthSizeMinusOne is: a
      1-, 2- or 3-byte length size is reported as 4. The two readings agree
      only when lengthSizeMinusOne is 3 (0xFF), and differ on 0xFC. */
  lemma LengthSizeFieldCounterexample()
    ensures forall b: byte :: b / 4 == 63 ==> LengthSizeFieldAsWritten(b) == 3
    ensures LengthSizeFieldAsWritten(0xFF) == LengthSizeMinusOne(0xFF) == 3
    ensures LengthSizeFieldAsWritten(0xFC) == 3 && LengthSizeMinusOne(0xFC) == 0
  {
  }

  /** Parameter sets read so far and the bytes after the last one. */
  datatype Parsed = Parsed(sets: seq<seq<byte>>, rest: seq<byte>)

  /** Reads `count` entries from the front of `t`: each a 16-bit big-endian
      size and that many payload bytes. Reading past the end is an error. */
  function ParseSets(t: seq<byte>, count: nat): (r: Result<Parsed, ParseError>)
    ensures r.Ok? ==> |r.value.sets| == count && |r.value.rest| <= |t|
    ensures r.Err? ==> r.error == TruncatedRecord
    decreases count
  {
    if count == 0 then Ok(Parsed([], t))
    else if |t| < 2 || 2 + Be16(t[0], t[1]) > |t| then Err(TruncatedRecord)
    else
      var size := Be16(t[0], t[1]);
      Prepend([t[2..2 + size]], ParseSets(t[2 + size..], count - 1))
  }

  /** Puts `sets` in front of a successful parse; a failure stays a failure. */
  function Prepend(sets: seq<seq<byte>>, r: Result<Parsed, ParseError>): Result<Parsed, ParseError> {
    match r
    case Err(e) => Err(e)
    case Ok(p) => Ok(Parsed(sets + p.sets, p.rest))
  }

  /** A successful parse consumes exactly the encoding of the entries it
      returns: the input is that encoding followed by the rest. */
  lemma {:induction false} ParseSetsLayout(t: seq<byte>, count: nat)
    requires ParseSets(t, count).Ok?
    ensures var p := ParseSets(t, count).value; Fits16(p.sets) && t == SetsBytes(p.sets) + p.rest
    decreases count
  {
    if count > 0 {
      var size, next := ParseStep(t, count);
      ParseSetsLayout(t[2 + size..], count - 1);
      LayoutCons(t, size, next);
    }
  }

  /** A successful parse of at least one entry reads an entry that fits,
      then parses the others from right after it. */
  lemma ParseStep(t: seq<byte>, count: nat) returns (size: nat, next: Parsed)
    requires count > 0 && ParseSets(t, count).Ok?
    ensures 2 <= |t| && size == Be16(t[0], t[1]) && 2 + size <= |t|
    ensures ParseSets(t[2 + size..], count - 1) == Ok(next)
    ensures ParseSets(t, count).value == Parsed([t[2..2 + size]] + next.sets, next.rest)
  {
    size := Be16(t[0], t[1]);
    next := ParseSets(t[2 + size..], count - 1).value;
  }

  /** An entry that fits, then the encoding of more entries and a rest, is
      the encoding of all of them and that rest. */
  lemma LayoutCons(t: seq<byte>, size: nat, next: Parsed)
    requires 2 <= |t| && size == Be16(t[0], t[1]) && 2 + size <= |t|
    requires Fits16(next.sets) && t[2 + size..] == SetsBytes(next.sets) + next.rest
    ensures Fits16([t[2..2 + size]] + next.sets)
    ensures t == SetsBytes([t[2..2 + size]] + next.sets) + next.rest
  {
    var head := t[2..2 + size];
    var all := [head] + next.sets;
    assert Fits16(all) && SetsBytes(all) == BigEndian(size, 2) + head + SetsBytes(next.sets) by {
      assert Fits16([head]) by {
        assert [head][0] == head;
      }
      Fits16Concat([head], next.sets);
      SetsBytesCons(all);
      assert all[0] == head && |head| == size && all[1..] == next.sets;
    }
    EntryLayout(t);
    Regroup(BigEndian(size, 2), head, SetsBytes(next.sets), next.rest);
  }

  /** An entry that fits is its size field, its payload, then the rest. */
  lemma EntryLayout(t: seq<byte>)
    requires 2 <= |t| && 2 + Be16(t[0], t[1]) <= |t|
    ensures var size := Be16(t[0], t[1]); t == BigEndian(size, 2) + t[2..2 + size] + t[2 + size..]
  {
    Slices3(t, 2, 2 + Be16(t[0], t[1]));
    Front2(t);
    BigEndianOfBe16(t[0], t[1]);
  }

  /** Conversely, parsing the encoding of entries followed by anything reads
      back those entries first, then goes on parsing what follows. */
  lemma {:induction false} ParseSetsOfBytes(sets: seq<seq<byte>>, rest: seq<byte>, n: nat)
    requires Fits16(sets)
    ensures ParseSets(SetsBytes(sets) + rest, |sets| + n) == Prepend(sets, ParseSets(rest, n))
    decreases |sets|
  {
    if sets != [] {
      Fits16Slices(sets, 1);
      ParseSetsOfBytes(sets[1..], rest, n);
      ParseAfterFirst(sets, rest, n);
    } else {
      assert SetsBytes(sets) + rest == rest && |sets| + n == n;
      PrependNothing(ParseSets(rest, n));
    }
  }

  /** Once the entries after the first one read back, all of them do. */
  lemma ParseAfterFirst(sets: seq<seq<byte>>, rest: seq<byte>, n: nat)
    requires sets != [] && Fits16(sets) && Fits16(sets[1..])
    requires ParseSets(SetsBytes(sets[1..]) + rest, |sets[1..]| + n) == Prepend(sets[1..], ParseSets(rest, n))
    ensures ParseSets(SetsBytes(sets) + rest, |sets| + n) == Prepend(sets, ParseSets(rest, n))
  {
    ParseCons(sets, rest, n);
    PrependPrepend([sets[0]], sets[1..], ParseSets(rest, n));
    HeadTail(sets);
  }

  /** The first entry of a non-empty list is read first. */
  lemma ParseCons(sets: seq<seq<byte>>, rest: seq<byte>, n: nat)
    requires sets != [] && Fits16(sets)
    ensures Fits16(sets[1..])
    ensures ParseSets(SetsBytes(sets) + rest, |sets| + n)
         == Prepend([sets[0]], ParseSets(SetsBytes(sets[1..]) + rest, |sets[1..]| + n))
  {
    var x, more := sets[0], sets[1..];
    SetsBytesCons(sets);
    Assoc(BigEndian(|x|, 2) + x, SetsBytes(more), rest);
    assert |sets| + n - 1 == |more| + n;
    ParseEntry(SetsBytes(sets) + rest, x, SetsBytes(more) + rest, |sets| + n);
  }

  /** Prepending nothing changes nothing. */
  lemma PrependNothing(r: Result<Parsed, ParseError>)
    ensures Prepend([], r) == r
  {
    if r.Ok? {
      assert [] + r.value.sets == r.value.sets;
    }
  }

  /** Prepending twice is prepending the concatenation. */
  lemma PrependPrepend(a: seq<seq<byte>>, b: seq<seq<byte>>, r: Result<Parsed, ParseError>)
    ensures Prepend(a, Prepend(b, r)) == Prepend(a + b, r)
  {
    if r.Ok? {
      assert a + (b + r.value.sets) == (a + b) + r.value.sets;
    }
  }

  /** Both parts of a list cut at `k` keep 16-bit sizes. */
  lemma Fits16Slices(sets: seq<seq<byte>>, k: nat)
    requires Fits16(sets) && k <= |sets|
    ensures Fits16(sets[..k]) && Fits16(sets[k..])
  {
    forall j | 0 <= j < k ensures |sets[..k][j]| < 0x1_0000 {
      assert sets[..k][j] == sets[j];
    }
    forall j | 0 <= j < |sets| - k ensures |sets[k..][j]| < 0x1_0000 {
      assert sets[k..][j] == sets[k + j];
    }
  }

  /** The encoding of two lists one after the other is that of their
      concatenation. */
  lemma {:induction false} SetsBytesConcat(a: seq<seq<byte>>, b: seq<seq<byte>>)
    requires Fits16(a) && Fits16(b)
    ensures Fits16(a + b) && SetsBytes(a + b) == SetsBytes(a) + SetsBytes(b)
    decreases |a|
  {
    var ab := a + b;
    Fits16Concat(a, b);
    if a == [] {
      assert SetsBytes(a) == [];
      assert ab == b;
    } else {
      SetsBytesCons(a);
      SetsBytesCons(ab);
      assert ab[0] == a[0] && ab[1..] == a[1..] + b;
      SetsBytesConcat(a[1..], b);
      Assoc(BigEndian(|a[0]|, 2) + a[0], SetsBytes(a[1..]), SetsBytes(b));
    }
  }

  /** An entry written as its 2-byte size and its payload is read back as
      that payload, and parsing goes on right after it. */
  lemma ParseEntry(t: seq<byte>, x: seq<byte>, tail: seq<byte>, count: nat)
    requires |x| < 0x1_0000 && t == BigEndian(|x|, 2) + x + tail && count > 0
    ensures ParseSets(t, count) == Prepend([x], ParseSets(tail, count - 1))
  {
    var f := BigEndian(|x|, 2);
    Be16OfBigEndian(|x|);
    assert t[0] == f[0] && t[1] == f[1];
    Assoc(f, x, tail);
    SliceAfter(f, x + tail, 0, |x|);
    SliceAfter(x, tail, 0, |tail|);
  }

  /** How many PPS entries the PPS loop reads: the PPS count as the format
      says, or the SPS count as the loop at line 178 of avcc_2_annexb.cpp does. */
  datatype PpsLoopBound = ByPpsCount | BySpsCount

  /** The record as the converter reads it, with the PPS loop bounded by `bound`. */
  function DecodeWith(s: seq<byte>, bound: PpsLoopBound): (r: Result<Config, ParseError>)
    ensures |s| < MinRecordSize ==> r == Err(TruncatedHeader)
    ensures r.Ok? ==> |r.value.sps| == SpsCount(s[HeaderSize]) <= 31
    ensures r.Ok? ==> |r.value.pps| == if bound == ByPpsCount then r.value.ppsCount else |r.value.sps|
  {
    if |s| < MinRecordSize then Err(TruncatedHeader)
    else
      var spsCount := SpsCount(s[HeaderSize]);
      match ParseSets(s[HeaderSize + 1..], spsCount)
      case Err(e) => Err(e)
      case Ok(sps) =>
        if sps.rest == [] then Err(TruncatedRecord)
        else
          var ppsCount := sps.rest[0];
          var loops := if bound == ByPpsCount then ppsCount else spsCount;
          match ParseSets(sps.rest[1..], loops)
          case Err(e) => Err(e)
          case Ok(pps) => Ok(Config(s[0], s[1], s[2], s[3], s[4], s[5], sps.sets, ppsCount, pps.sets))
  }

  /** The record as the format lays it out: the PPS loop runs the PPS count,
      where line 178 of the converter runs it the SPS count. */
  function Decode(s: seq<byte>): (r: Result<Config, ParseError>)
    ensures |s| < MinRecordSize ==> r == Err(TruncatedHeader)
    ensures r.Ok? ==> |r.value.sps| <= 31 && |r.value.pps| == r.value.ppsCount
  {
    DecodeWith(s, ByPpsCount)
  }

  /** A record whose counts match its lists and whose entries fit 16-bit sizes. */
  predicate WellFormed(c: Config) {
    SpsCount(c.spsCountByte) == |c.sps| && c.ppsCount == |c.pps| && Fits16(c.sps) && Fits16(c.pps)
  }

  /** The bytes of a well-formed record. */
  function Encode(c: Config): (r: seq<byte>)
    requires WellFormed(c)
  {
    [c.version, c.profile, c.compatibility, c.level, c.lengthSizeByte, c.spsCountByte]
      + SetsBytes(c.sps) + [c.ppsCount] + SetsBytes(c.pps)
  }

  /** Decode accepts exactly the inputs that begin with the encoding of a
      well-formed record: the header bytes are the first six, the SPS
      entries follow, and the PPS count is the byte right after the last SPS
      entry. Bytes after the last PPS entry are ignored. */
  lemma DecodeLayout(s: seq<byte>)
    requires Decode(s).Ok?
    ensures var c := Decode(s).value;
      WellFormed(c) && Encode(c) <= s
      && c.spsCountByte == s[HeaderSize] && c.ppsCount == s[HeaderSize + 1 + |SetsBytes(c.sps)|]
  {
    var c := Decode(s).value;
    var sps := ParseSets(s[6..], SpsCount(s[5])).value;
    var pps := ParseSets(sps.rest[1..], sps.rest[0]).value;
    assert c == Config(s[0], s[1], s[2], s[3], s[4], s[5], sps.sets, sps.rest[0], pps.sets);
    ParseSetsLayout(s[6..], SpsCount(s[5]));
    ParseSetsLayout(sps.rest[1..], sps.rest[0]);
    RecordLayout(s, SetsBytes(sps.sets), sps.rest, SetsBytes(pps.sets), pps.rest);
  }

  /** Six header bytes, a list, one byte and a second list, in order. */
  lemma RecordLayout(s: seq<byte>, x: seq<byte>, m: seq<byte>, z: seq<byte>, rest: seq<byte>)
    requires 6 <= |s| && s[6..] == x + m && |m| > 0 && m[1..] == z + rest
    ensures s == [s[0], s[1], s[2], s[3], s[4], s[5]] + x + [m[0]] + z + rest
    ensures s[6 + |x|] == m[0]
  {
    assert m == [m[0]] + m[1..];
    assert s == s[..6] + s[6..];
    assert s[..6] == [s[0], s[1], s[2], s[3], s[4], s[5]];
  }

  /** The pieces of an encoded record are where the decoder looks for them. */
  lemma RecordPieces(h: seq<byte>, x: seq<byte>, p: byte, z: seq<byte>, rest: seq<byte>)
    requires |h| == 6
    ensures var s := h + x + [p] + z + rest;
      s[..6] == h && s[6..] == x + ([p] + z + rest) && ([p] + z + rest)[1..] == z + rest
  {
    var s := h + x + [p] + z + rest;
    assert s == h + (x + ([p] + z + rest));
  }

  /** In an encoded record the SPS count is at its place and the SPS entries
      parse back, leaving the PPS count, the PPS entries and what follows. */
  lemma EncodedSps(c: Config, trailing: seq<byte>)
    requires WellFormed(c)
    ensures var s := Encode(c) + trailing;
      |s| >= MinRecordSize && s[0] == c.version && s[1] == c.profile && s[2] == c.compatibility
      && s[3] == c.level && s[4] == c.lengthSizeByte && s[HeaderSize] == c.spsCountByte
      && ParseSets(s[HeaderSize + 1..], SpsCount(s[HeaderSize]))
         == Ok(Parsed(c.sps, [c.ppsCount] + SetsBytes(c.pps) + trailing))
    ensures var afterSps := [c.ppsCount] + SetsBytes(c.pps) + trailing;
      afterSps[0] == c.ppsCount && afterSps[1..] == SetsBytes(c.pps) + trailing
  {
    EncodedHeader(c, trailing);
    EncodedSpsList(c, trailing);
  }

  /** The six header bytes lead an encoded record. */
  lemma EncodedHeader(c: Config, trailing: seq<byte>)
    requires WellFormed(c)
    ensures var s := Encode(c) + trailing;
      |s| >= MinRecordSize && s[0] == c.version && s[1] == c.profile && s[2] == c.compatibility
      && s[3] == c.level && s[4] == c.lengthSizeByte && s[HeaderSize] == c.spsCountByte
  {
    var h := [c.version, c.profile, c.compatibility, c.level, c.lengthSizeByte, c.spsCountByte];
    RecordPieces(h, SetsBytes(c.sps), c.ppsCount, SetsBytes(c.pps), trailing);
    var s := Encode(c) + trailing;
    assert s[0] == h[0] && s[1] == h[1] && s[2] == h[2] && s[3] == h[3] && s[4] == h[4] && s[5] == h[5];
  }

  /** The SPS list of an encoded record reads back, followed by the PPS count
      and the PPS list. */
  lemma EncodedSpsList(c: Config, trailing: seq<byte>)
    requires WellFormed(c)
    ensures var s := Encode(c) + trailing;
      |s| >= MinRecordSize
      && ParseSets(s[HeaderSize + 1..], SpsCount(c.spsCountByte))
         == Ok(Parsed(c.sps, [c.ppsCount] + SetsBytes(c.pps) + trailing))
    ensures var afterSps := [c.ppsCount] + SetsBytes(c.pps) + trailing;
      afterSps[0] == c.ppsCount && afterSps[1..] == SetsBytes(c.pps) + trailing
  {
    var h := [c.version, c.profile, c.compatibility, c.level, c.lengthSizeByte, c.spsCountByte];
    var afterSps := [c.ppsCount] + SetsBytes(c.pps) + trailing;
    RecordPieces(h, SetsBytes(c.sps), c.ppsCount, SetsBytes(c.pps), trailing);
    ParseAll(c.sps, afterSps, SpsCount(c.spsCountByte));
  }

  /** Reading exactly the entries of an encoded list reads them all back and
      leaves what follows. */
  lemma ParseAll(sets: seq<seq<byte>>, rest: seq<byte>, count: nat)
    requires Fits16(sets) && count == |sets|
    ensures ParseSets(SetsBytes(sets) + rest, count) == Ok(Parsed(sets, rest))
  {
    ParseSetsOfBytes(sets, rest, 0);
    assert |sets| + 0 == count;
    assert ParseSets(rest, 0) == Ok(Parsed([], rest));
    assert sets + [] == sets;
  }

  /** A well-formed record, followed by anything, decodes to itself. */
  lemma DecodeEncode(c: Config, trailing: seq<byte>)
    requires WellFormed(c)
    ensures Decode(Encode(c) + trailing) == Ok(c)
  {
    var s := Encode(c) + trailing;
    var afterSps := [c.ppsCount] + SetsBytes(c.pps) + trailing;
    EncodedSps(c, trailing);
    ParseAll(c.pps, trailing, c.ppsCount);
    DecodeWithOfParts(s, ByPpsCount, Parsed(c.sps, afterSps), Ok(Parsed(c.pps, trailing)), c);
  }

  /** Decoding assembles the record from the header bytes and the two list
      parses; a failed PPS parse is the result. */
  lemma DecodeWithOfParts(s: seq<byte>, bound: PpsLoopBound, sps: Parsed,
                          pps: Result<Parsed, ParseError>, c: Config)
    requires |s| >= MinRecordSize && ParseSets(s[HeaderSize + 1..], SpsCount(s[HeaderSize])) == Ok(sps)
    requires sps.rest != []
    requires ParseSets(sps.rest[1..], if bound == ByPpsCount then sps.rest[0] else SpsCount(s[HeaderSize])) == pps
    requires pps.Ok? ==> c == Config(s[0], s[1], s[2], s[3], s[4], s[5], sps.sets, sps.rest[0], pps.value.sets)
    ensures DecodeWith(s, bound) == if pps.Ok? then Ok(c) else Err(pps.error)
  {
  }

  /** Decoding stops with the SPS parse's failure, or when no byte is left
      for the PPS count. */
  lemma DecodeStops(s: seq<byte>, bound: PpsLoopBound, sps: Result<Parsed, ParseError>)
    requires |s| >= MinRecordSize && ParseSets(s[HeaderSize + 1..], SpsCount(s[HeaderSize])) == sps
    requires sps.Err? || sps.value.rest == []
    ensures DecodeWith(s, bound) == Err(if sps.Err? then sps.error else TruncatedRecord)
  {
  }

  /** Decoding fails with the PPS parse's failure. */
  lemma DecodePpsFails(s: seq<byte>, bound: PpsLoopBound, sps: Parsed, pps: Result<Parsed, ParseError>)
    requires |s| >= MinRecordSize && ParseSets(s[HeaderSize + 1..], SpsCount(s[HeaderSize])) == Ok(sps)
    requires sps.rest != []
    requires ParseSets(sps.rest[1..], if bound == ByPpsCount then sps.rest[0] else SpsCount(s[HeaderSize])) == pps
    requires pps.Err?
    ensures DecodeWith(s, bound) == Err(pps.error)
  {
  }

  /** Reads `count` entries from offset `start` on, appending each one to the
      output as the start code followed by its payload (the two `for` loops
      of the converter, with the size checks the source lacks). On success
      `end` is the cursor just past the last entry. */
  method CopySets(buff: array<byte>, size: nat, start: nat, count: nat)
    returns (r: Result<Parsed, ParseError>, end: nat, emitted: seq<byte>)
    requires start <= size <= buff.Length
    ensures r == ParseSets(buff[start..size], count)
    ensures r.Ok? ==> start <= end <= size && r.value.rest == buff[end..size]
    ensures r.Ok? ==> emitted == AnnexB(r.value.sets)
  {
    ghost var s := buff[..size];
    assert s[start..] == buff[start..size];
    var offset := start;
    var sets: seq<seq<byte>> := [];
    emitted := [];
    for i := 0 to count
      invariant start <= offset <= size && |sets| == i
      invariant Copied(s, start, offset, sets, emitted)
    {
      if offset + 2 > size {
        ReadPastEnd(s, start, offset, sets, count);
        return Err(TruncatedRecord), 0, [];
      }
      var setSize := Be16(buff[offset], buff[offset + 1]);
      if offset + 2 + setSize > size {
        ReadPastEnd(s, start, offset, sets, count);
        return Err(TruncatedRecord), 0, [];
      }
      var payload := buff[offset + 2..offset + 2 + setSize];
      assert s[offset] == buff[offset] && s[offset + 1] == buff[offset + 1];
      SliceOfPrefix(buff[..], size, offset + 2, offset + 2 + setSize);
      CopyStep(s, start, offset, sets, emitted, setSize, payload);
      emitted := emitted + AnnexBUnit(payload);
      sets := sets + [payload];
      offset := offset + 2 + setSize;
    }
    ReadSoFar(s, start, offset, sets, count);
    assert sets + [] == sets;
    assert s[offset..] == buff[offset..size];
    r, end := Ok(Parsed(sets, buff[offset..size])), offset;
  }

  /** The copy with its cursor at `offset`: the bytes of `s` from `start` up
      to it encode `sets`, and `emitted` holds them in Annex B form. */
  ghost predicate Copied(s: seq<byte>, start: nat, offset: nat, sets: seq<seq<byte>>, emitted: seq<byte>) {
    start <= offset <= |s| && Fits16(sets) && s[start..offset] == SetsBytes(sets) && emitted == AnnexB(sets)
  }

  /** Copying the entry at the cursor extends the entries copied so far. */
  lemma CopyStep(s: seq<byte>, start: nat, offset: nat, sets: seq<seq<byte>>, emitted: seq<byte>,
                 setSize: nat, payload: seq<byte>)
    requires Copied(s, start, offset, sets, emitted)
    requires offset + 2 <= |s| && setSize == Be16(s[offset], s[offset + 1]) && offset + 2 + setSize <= |s|
    requires payload == s[offset + 2..offset + 2 + setSize]
    ensures Copied(s, start, offset + 2 + setSize, sets + [payload], emitted + AnnexBUnit(payload))
  {
    ReadEntry(s, start, offset, sets);
    AnnexBSnoc(sets, payload);
  }

  /** Entries read from `start` up to `offset` are the first entries of the
      parse from `start`; the parse goes on at `offset`. */
  lemma ReadSoFar(s: seq<byte>, start: nat, offset: nat, sets: seq<seq<byte>>, count: nat)
    requires start <= offset <= |s| && Fits16(sets) && |sets| <= count
    requires s[start..offset] == SetsBytes(sets)
    ensures ParseSets(s[start..], count) == Prepend(sets, ParseSets(s[offset..], count - |sets|))
  {
    Join(s, start, offset, offset);
    ParsePrefix(s[start..], sets, s[offset..], count);
  }

  /** Reading `count` entries from the encoding of `sets`, followed by
      `rest`, reads `sets` and then the remaining entries from `rest`. */
  lemma ParsePrefix(t: seq<byte>, sets: seq<seq<byte>>, rest: seq<byte>, count: nat)
    requires Fits16(sets) && |sets| <= count && t == SetsBytes(sets) + rest
    ensures ParseSets(t, count) == Prepend(sets, ParseSets(rest, count - |sets|))
  {
    ParseSetsOfBytes(sets, rest, count - |sets|);
    assert |sets| + (count - |sets|) == count;
  }

  /** Reading one more entry in place extends the entries read so far. */
  lemma ReadEntry(s: seq<byte>, start: nat, offset: nat, sets: seq<seq<byte>>)
    requires start <= offset && offset + 2 <= |s| && offset + 2 + Be16(s[offset], s[offset + 1]) <= |s|
    requires Fits16(sets) && s[start..offset] == SetsBytes(sets)
    ensures var next := offset + 2 + Be16(s[offset], s[offset + 1]);
      Fits16(sets + [s[offset + 2..next]]) && s[start..next] == SetsBytes(sets + [s[offset + 2..next]])
  {
    var next := offset + 2 + Be16(s[offset], s[offset + 1]);
    var x := s[offset + 2..next];
    OneEntry(s, offset);
    Join(s, start, offset, next);
    SetsBytesConcat(sets, [x]);
  }

  /** The bytes of one entry in place are the encoding of that entry alone. */
  lemma OneEntry(s: seq<byte>, offset: nat)
    requires offset + 2 <= |s| && offset + 2 + Be16(s[offset], s[offset + 1]) <= |s|
    ensures var next := offset + 2 + Be16(s[offset], s[offset + 1]);
      Fits16([s[offset + 2..next]]) && s[offset..next] == SetsBytes([s[offset + 2..next]])
  {
    var next := offset + 2 + Be16(s[offset], s[offset + 1]);
    var x := s[offset + 2..next];
    var one: seq<seq<byte>> := [x];
    assert Fits16(one) by {
      assert one[0] == x;
    }
    SetsBytesCons(one);
    assert one[1..] == [];
    assert SetsBytes([x]) == BigEndian(|x|, 2) + x;
    BigEndianOfBe16(s[offset], s[offset + 1]);
    Join(s, offset, offset + 2, next);
    Front2(s[offset..next]);
  }

  /** An entry whose size field or payload runs past the end of `s` makes
      the whole parse fail. */
  lemma ReadPastEnd(s: seq<byte>, start: nat, offset: nat, sets: seq<seq<byte>>, count: nat)
    requires start <= offset <= |s| && Fits16(sets) && |sets| < count
    requires s[start..offset] == SetsBytes(sets)
    requires offset + 2 <= |s| ==> offset + 2 + Be16(s[offset], s[offset + 1]) > |s|
    ensures ParseSets(s[start..], count) == Err(TruncatedRecord)
  {
    ReadSoFar(s, start, offset, sets, count);
    var t := s[offset..];
    if 2 <= |t| {
      assert t[0] == s[offset] && t[1] == s[offset + 1];
    }
  }

  /** The configuration-record mode of the converter. `prior` is what the
      output file held before. A missing or short buffer fails before the
      file is opened, leaving it as it was; otherwise the file is recreated
      and holds, on success, every SPS and then every PPS in Annex B form,
      and nothing on failure. The PPS loop runs the PPS count, as the
      format lays the record out; line 178 runs it the SPS count instead,
      which is DecodeWith(_, BySpsCount). */
  method ParseAvccExtra(buff: array?<byte>, size: int, prior: seq<byte>)
    returns (r: Result<Config, ParseError>, out: seq<byte>)
    requires buff != null ==> size <= buff.Length
    ensures buff == null ==> r == Err(MissingBuffer) && out == prior
    ensures buff != null && size < MinRecordSize ==> r == Err(TruncatedHeader) && out == prior
    ensures buff != null && size >= MinRecordSize ==> r == Decode(buff[..size])
    ensures r.Ok? ==> out == AnnexB(r.value.sps + r.value.pps)
    ensures buff != null && size >= MinRecordSize && r.Err? ==> out == []
  {
    if buff == null {
      return Err(MissingBuffer), prior;
    }
    if size < MinRecordSize {
      return Err(TruncatedHeader), prior;
    }
    r, out := ParseRecord(buff, size);
  }

  /** The configuration-record mode on a buffer long enough for the header:
      the SPS entries, the PPS count and the PPS entries are read in order,
      each entry written out in Annex B form; a failure leaves the freshly
      recreated output empty. The PPS loop runs the PPS count (see
      ParseAvccExtra). */
  method ParseRecord(buff: array<byte>, size: nat) returns (r: Result<Config, ParseError>, out: seq<byte>)
    requires MinRecordSize <= size <= buff.Length
    ensures r == Decode(buff[..size])
    ensures r.Ok? ==> out == AnnexB(r.value.sps + r.value.pps)
    ensures r.Err? ==> out == []
  {
    ghost var s := buff[..size];
    assert s[HeaderSize + 1..] == buff[HeaderSize + 1..size];
    var spsCount := SpsCount(buff[HeaderSize]);
    var sps, offset, spsOut := CopySets(buff, size, HeaderSize + 1, spsCount);
    if sps.Err? || offset >= size {
      DecodeStops(s, ByPpsCount, sps);
      return Err(if sps.Err? then sps.error else TruncatedRecord), [];
    }
    r, out := ParsePps(buff, size, offset, sps.value, spsOut);
  }

  /** The second half of the record, once the SPS entries are read and
      written: the PPS count at `offset`, then as many PPS entries as it
      says (line 178 reads the SPS count of them instead). */
  method ParsePps(buff: array<byte>, size: nat, offset: nat, sps: Parsed, spsOut: seq<byte>)
    returns (r: Result<Config, ParseError>, out: seq<byte>)
    requires MinRecordSize <= size <= buff.Length && offset < size
    requires ParseSets(buff[..size][HeaderSize + 1..], SpsCount(buff[..size][HeaderSize])) == Ok(sps)
    requires sps.rest == buff[offset..size] && spsOut == AnnexB(sps.sets)
    ensures r == Decode(buff[..size])
    ensures r.Ok? ==> out == AnnexB(r.value.sps + r.value.pps)
    ensures r.Err? ==> out == []
  {
    ghost var s := buff[..size];
    var ppsCount := buff[offset];
    assert sps.rest[0] == ppsCount && sps.rest[1..] == buff[offset + 1..size];
    var pps, _, ppsOut := CopySets(buff, size, offset + 1, ppsCount);
    if pps.Err? {
      DecodePpsFails(s, ByPpsCount, sps, pps);
      return Err(pps.error), [];
    }
    r := Ok(Config(buff[0], buff[1], buff[2], buff[3], buff[4], buff[5], sps.sets, ppsCount, pps.value.sets));
    DecodeWithOfParts(s, ByPpsCount, sps, pps, r.value);
    AnnexBConcat(sps.sets, pps.value.sets);
    out := spsOut + ppsOut;
  }

  /** The PPS loop bounded by the SPS count, as line 178 does: on a
      well-formed record with at least as many PPS as SPS entries it reads
      only the first SPS-count PPS entries; with fewer, it runs past the end
      of the record. */
  lemma PpsLoopBoundAsWritten(c: Config, trailing: seq<byte>)
    requires WellFormed(c)
    ensures |c.sps| <= |c.pps| ==>
      DecodeWith(Encode(c) + trailing, BySpsCount) == Ok(c.(pps := c.pps[..|c.sps|]))
    ensures |c.pps| < |c.sps| ==> DecodeWith(Encode(c), BySpsCount) == Err(TruncatedRecord)
  {
    var k := |c.sps|;
    if k <= |c.pps| {
      var s := Encode(c) + trailing;
      var afterSps := [c.ppsCount] + SetsBytes(c.pps) + trailing;
      EncodedSps(c, trailing);
      var tail := PpsPrefix(c.pps, k, trailing);
      DecodeWithOfParts(s, BySpsCount, Parsed(c.sps, afterSps), Ok(Parsed(c.pps[..k], tail)),
                        c.(pps := c.pps[..k]));
    } else {
      var s := Encode(c) + [];
      var afterSps := [c.ppsCount] + SetsBytes(c.pps) + [];
      EncodedSps(c, []);
      assert s == Encode(c);
      PpsShort(c.pps, k);
      DecodeWithOfParts(s, BySpsCount, Parsed(c.sps, afterSps), Err(TruncatedRecord), c);
    }
  }

  /** Reading only the first `k` entries of an encoded list leaves the
      encoding of the others. */
  lemma PpsPrefix(sets: seq<seq<byte>>, k: nat, trailing: seq<byte>) returns (tail: seq<byte>)
    requires Fits16(sets) && k <= |sets|
    ensures tail == SetsBytes(sets[k..]) + trailing
    ensures ParseSets(SetsBytes(sets) + trailing, k) == Ok(Parsed(sets[..k], tail))
  {
    tail := SetsBytes(sets[k..]) + trailing;
    Fits16Slices(sets, k);
    assert sets[..k] + sets[k..] == sets;
    SetsBytesConcat(sets[..k], sets[k..]);
    assert SetsBytes(sets) + trailing == SetsBytes(sets[..k]) + tail;
    ParseAll(sets[..k], tail, k);
  }

  /** Reading more entries than an encoded list holds, with nothing after
      it, runs past the end. */
  lemma PpsShort(sets: seq<seq<byte>>, k: nat)
    requires Fits16(sets) && |sets| < k
    ensures ParseSets(SetsBytes(sets) + [], k) == Err(TruncatedRecord)
  {
    ParseSetsOfBytes(sets, [], k - |sets|);
    assert |sets| + (k - |sets|) == k;
  }

  /** A record with one SPS entry and two PPS entries. */
  const OneSpsTwoPps: Config := Config(0x01, 0x42, 0x00, 0x1E, 0xFF, 0xE1, [[0x67]], 2, [[0x68], [0xCE]])

  /** Bounding the PPS loop by the SPS count, as line 178 does, reads only the
      first of the two PPS entries of OneSpsTwoPps; bounding it by the PPS
      count reads both. */
  lemma PpsLoopBoundCounterexample()
    ensures WellFormed(OneSpsTwoPps)
    ensures DecodeWith(Encode(OneSpsTwoPps), BySpsCount) == Ok(OneSpsTwoPps.(pps := [[0x68]]))
    ensures Decode(Encode(OneSpsTwoPps)) == Ok(OneSpsTwoPps)
  {
    var c := OneSpsTwoPps;
    assert WellFormed(c);
    assert Encode(c) + [] == Encode(c);
    DecodeEncode(c, []);
    PpsLoopBoundAsWritten(c, []);
    assert c.pps[..1] == [[0x68]];
  }
}
