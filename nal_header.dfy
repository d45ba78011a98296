/** The one-byte H.264 NAL unit header (section 7.3.1 of ITU-T H.264):
    forbidden_zero_bit (bit 7), nal_ref_idc (bits 6..5) and nal_unit_type
    (bits 4..0), and the classification of nal_unit_type against the codes
    1..12 of Table 7-1 that the converter names when it reports a unit. */
module NalHeader {
  import opened Bytes

  /** The classes the converter reports; every other type code is Unknown. */
  datatype NalKind =
    | Slice        // 1, non-IDR slice ("P/B Slice")
    | Dpa          // 2, slice data partition A
    | Dpb          // 3, slice data partition B
    | Dpc          // 4, slice data partition C
    | Idr          // 5, IDR slice
    | Sei          // 6, supplemental enhancement information
    | Sps          // 7, sequence parameter set
    | Pps          // 8, picture parameter set
    | Aud          // 9, access unit delimiter
    | EndOfSeq     // 10
    | EndOfStream  // 11
    | Filler       // 12, filler data
    | Unknown

  datatype Header = Header(forbiddenZeroBit: nat, nalRefIdc: nat, nalUnitType: nat, kind: NalKind)

  /** The field widths of the header byte: 1, 2 and 5 bits. */
  predicate FieldsInRange(h: Header) {
    h.forbiddenZeroBit < 2 && h.nalRefIdc < 4 && h.nalUnitType < 32
  }

  /** The byte whose three bit fields are those of `h`. */
  function Pack(h: Header): (b: byte)
    requires FieldsInRange(h)
  {
    h.forbiddenZeroBit * 128 + h.nalRefIdc * 32 + h.nalUnitType
  }

  /** The type code a known class stands for. */
  function KindCode(k: NalKind): (t: nat)
    requires k != Unknown
    ensures 1 <= t <= 12
  {
    match k
    case Slice => 1
    case Dpa => 2
    case Dpb => 3
    case Dpc => 4
    case Idr => 5
    case Sei => 6
    case Sps => 7
    case Pps => 8
    case Aud => 9
    case EndOfSeq => 10
    case EndOfStream => 11
    case Filler => 12
  }

  /** The `switch` on nal_type: codes 1..12 are named, all others are Unknown,
      which is reported with a warning and never fails. */
  function Classify(t: nat): (k: NalKind)
    ensures k == Unknown <==> !(1 <= t <= 12)
    ensures k != Unknown ==> KindCode(k) == t
  {
    if t == 1 then Slice
    else if t == 2 then Dpa
    else if t == 3 then Dpb
    else if t == 4 then Dpc
    else if t == 5 then Idr
    else if t == 6 then Sei
    else if t == 7 then Sps
    else if t == 8 then Pps
    else if t == 9 then Aud
    else if t == 10 then EndOfSeq
    else if t == 11 then EndOfStream
    else if t == 12 then Filler
    else Unknown
  }

  /** The label the converter prints for each class. */
  function KindName(k: NalKind): (name: string)
    ensures name == "Unknow Slice" <==> k == Unknown
  {
    match k
    case Slice => "P/B Slice"
    case Dpa => "DPA Slice"
    case Dpb => "DPB Slice"
    case Dpc => "DPC Slice"
    case Idr => "IDR Slice"
    case Sei => "SEI Slice"
    case Sps => "SPS Slice"
    case Pps => "PPS Slice"
    case Aud => "AUD Slice"
    case EndOfSeq => "EOS seq Slice"
    case EndOfStream => "EOS stream Slice"
    case Filler => "FILL Slice"
    case Unknown => "Unknow Slice"
  }

  /** Decodes a header byte: total over all 256 values. The three fields are
      in range, pack back to exactly `b`, and the class is Unknown exactly
      when the type code is outside 1..12. */
  function Decode(b: byte): (h: Header)
    ensures FieldsInRange(h) && Pack(h) == b
    ensures h.kind == Unknown <==> !(1 <= h.nalUnitType <= 12)
    ensures h.kind != Unknown ==> KindCode(h.kind) == h.nalUnitType
  {
    var t := b % 32;
    Header(b / 128, b / 32 % 4, t, Classify(t))
  }

  /** Encoding any in-range header and decoding it again gives it back, so
      Decode and Pack are inverse bijections between bytes and headers. */
  lemma DecodePack(h: Header)
    requires FieldsInRange(h) && h.kind == Classify(h.nalUnitType)
    ensures Decode(Pack(h)) == h
  {
    var b, q := Pack(h), h.forbiddenZeroBit * 4 + h.nalRefIdc;
    assert b == q * 32 + h.nalUnitType;
    DigitsBase(q, h.nalUnitType, 32);
    DigitsBase(h.forbiddenZeroBit, h.nalRefIdc, 4);
    assert b / 128 == q / 4;
  }

  /** Division and remainder by a base recover the two digits of a number. */
  lemma DigitsBase(hi: nat, lo: nat, base: nat)
    requires lo < base && (base == 4 || base == 32)
    ensures (hi * base + lo) / base == hi && (hi * base + lo) % base == lo
  {
  }

  /** A known class and its type code determine each other. */
  lemma ClassifyKindCode(k: NalKind)
    requires k != Unknown
    ensures Classify(KindCode(k)) == k
  {
  }
}
