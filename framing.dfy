/** The two framings of a list of NAL units that the converter moves between:
    Annex B (section B.1 of ITU-T H.264: each unit preceded by the start code
    00 00 00 01) and length-prefixed framing (ISO/IEC 14496-15: each unit
    preceded by its size as a big-endian field, 4 bytes in a stream and 2
    bytes for the parameter sets of a decoder configuration record). */
module Framing {
  import opened Bytes

  /** The 4-byte Annex B start code. */
  const StartCode: seq<byte> := [0, 0, 0, 1]

  /** One unit in Annex B form: the start code, then the payload unchanged. */
  function AnnexBUnit(payload: seq<byte>): (r: seq<byte>)
    ensures |r| == 4 + |payload| && r[..4] == StartCode && r[4..] == payload
  {
    StartCode + payload
  }

  /** The Annex B stream of a list of units, in order. */
  function AnnexB(units: seq<seq<byte>>): (r: seq<byte>)
  {
    if units == [] then [] else AnnexBUnit(units[0]) + AnnexB(units[1..])
  }

  /** Appending a unit appends its Annex B form. */
  lemma AnnexBSnoc(units: seq<seq<byte>>, u: seq<byte>)
    ensures AnnexB(units + [u]) == AnnexB(units) + AnnexBUnit(u)
  {
    AnnexBConcat(units, [u]);
    assert AnnexB([u]) == AnnexBUnit(u) + AnnexB([]);
  }

  /** Every unit is short enough for a 4-byte length field. */
  predicate Fits32(units: seq<seq<byte>>) {
    forall k :: 0 <= k < |units| ==> |units[k]| < 0x1_0000_0000
  }

  /** Every parameter set is short enough for a 2-byte length field. */
  predicate Fits16(sets: seq<seq<byte>>) {
    forall k :: 0 <= k < |sets| ==> |sets[k]| < 0x1_0000
  }

  /** The AVCC stream of a list of units: each one preceded by its size as a
      4-byte big-endian field. */
  function AvccFrame(units: seq<seq<byte>>): (r: seq<byte>)
    requires Fits32(units)
  {
    if units == [] then [] else BigEndian(|units[0]|, 4) + units[0] + AvccFrame(units[1..])
  }

  /** The parameter-set list of a configuration record: each set preceded by
      its size as a 2-byte big-endian field. */
  function SetsBytes(sets: seq<seq<byte>>): (r: seq<byte>)
    requires Fits16(sets)
  {
    if sets == [] then [] else BigEndian(|sets[0]|, 2) + sets[0] + SetsBytes(sets[1..])
  }

  /** Dropping the first unit keeps every unit within 4-byte lengths. */
  lemma Fits32Tail(units: seq<seq<byte>>)
    requires units != [] && Fits32(units)
    ensures Fits32(units[1..]) && |units[0]| < 0x1_0000_0000
  {
    forall k | 0 <= k < |units| - 1 ensures |units[1..][k]| < 0x1_0000_0000 {
      assert units[1..][k] == units[k + 1];
    }
  }

  /** Appending a unit appends its length field and its payload. */
  lemma {:induction false} AvccFrameSnoc(units: seq<seq<byte>>, u: seq<byte>)
    requires Fits32(units) && |u| < 0x1_0000_0000
    ensures Fits32(units + [u])
    ensures AvccFrame(units + [u]) == AvccFrame(units) + BigEndian(|u|, 4) + u
    decreases |units|
  {
    Fits32Snoc(units, u);
    if units == [] {
      var all := units + [u];
      AvccFrameCons(all);
      assert all[0] == u && all[1..] == units;
    } else {
      var all := units + [u];
      AvccFrameCons(all);
      AvccFrameCons(units);
      assert all[0] == units[0] && all[1..] == units[1..] + [u];
      AvccFrameSnoc(units[1..], u);
      Regroup(BigEndian(|units[0]|, 4) + units[0], AvccFrame(units[1..]), BigEndian(|u|, 4), u);
    }
  }

  /** Two lists of units that fit, one after the other, fit. */
  lemma Fits32Concat(a: seq<seq<byte>>, b: seq<seq<byte>>)
    requires Fits32(a) && Fits32(b)
    ensures Fits32(a + b)
  {
    var ab := a + b;
    forall k | 0 <= k < |ab| ensures |ab[k]| < 0x1_0000_0000 {
      if k >= |a| {
        assert ab[k] == b[k - |a|];
      }
    }
  }

  /** Two lists of parameter sets that fit 16-bit sizes, one after the
      other, fit them. */
  lemma Fits16Concat(a: seq<seq<byte>>, b: seq<seq<byte>>)
    requires Fits16(a) && Fits16(b)
    ensures Fits16(a + b)
  {
    var ab := a + b;
    forall k | 0 <= k < |ab| ensures |ab[k]| < 0x1_0000 {
      if k >= |a| {
        assert ab[k] == b[k - |a|];
      }
    }
  }

  /** A non-empty list of parameter sets: its first set's size field and
      payload, then the others. */
  lemma SetsBytesCons(sets: seq<seq<byte>>)
    requires sets != [] && Fits16(sets)
    ensures Fits16(sets[1..])
    ensures SetsBytes(sets) == BigEndian(|sets[0]|, 2) + sets[0] + SetsBytes(sets[1..])
  {
    forall k | 0 <= k < |sets| - 1 ensures |sets[1..][k]| < 0x1_0000 {
      assert sets[1..][k] == sets[k + 1];
    }
  }

  /** Appending a unit to a list of units that fit gives units that fit. */
  lemma Fits32Snoc(units: seq<seq<byte>>, u: seq<byte>)
    requires Fits32(units) && |u| < 0x1_0000_0000
    ensures Fits32(units + [u])
  {
    var all := units + [u];
    forall k | 0 <= k < |all| ensures |all[k]| < 0x1_0000_0000 {
      if k < |units| {
        assert all[k] == units[k];
      }
    }
  }

  /** Where the `k`-th unit's 4-byte prefix starts, in either stream framing. */
  function Offset(units: seq<seq<byte>>, k: nat): (o: nat)
    requires k <= |units|
  {
    if k == 0 then 0 else 4 + |units[0]| + Offset(units[1..], k - 1)
  }

  /** Framing concatenated lists concatenates the framings. */
  lemma {:induction false} AnnexBConcat(xs: seq<seq<byte>>, ys: seq<seq<byte>>)
    ensures AnnexB(xs + ys) == AnnexB(xs) + AnnexB(ys)
  {
    if xs != [] {
      assert (xs + ys)[1..] == xs[1..] + ys;
      AnnexBConcat(xs[1..], ys);
    } else {
      assert xs + ys == ys;
    }
  }

  /** Replacing each 4-byte length by a start code keeps the stream length:
      both framings add exactly four bytes per unit. */
  lemma {:induction false} FramingLengths(units: seq<seq<byte>>)
    requires Fits32(units)
    ensures |AnnexB(units)| == |AvccFrame(units)| == Offset(units, |units|)
  {
    if units != [] {
      FramingLengths(units[1..]);
    }
  }

  /** A non-empty list in Annex B form: its first unit, then the others. */
  lemma AnnexBCons(units: seq<seq<byte>>)
    requires units != []
    ensures AnnexB(units) == AnnexBUnit(units[0]) + AnnexB(units[1..])
  {
  }

  /** A non-empty list in AVCC form: its first unit's size field and payload,
      then the others. */
  lemma AvccFrameCons(units: seq<seq<byte>>)
    requires units != [] && Fits32(units)
    ensures Fits32(units[1..]) && |units[0]| < 0x1_0000_0000
    ensures AvccFrame(units) == BigEndian(|units[0]|, 4) + units[0] + AvccFrame(units[1..])
  {
    Fits32Tail(units);
  }

  /** Where unit `k` starts, counted from the second unit on. */
  lemma OffsetCons(units: seq<seq<byte>>, k: nat)
    requires 0 < k <= |units|
    ensures Offset(units, k) == 4 + |units[0]| + Offset(units[1..], k - 1)
    ensures k < |units| ==> units[k] == units[1..][k - 1]
  {
  }

  /** Unit `k` sits at Offset(units, k) in the Annex B stream: the start code,
      then its payload byte for byte. */
  lemma {:induction false} AnnexBLayout(units: seq<seq<byte>>, k: nat)
    requires k < |units|
    ensures Offset(units, k) + 4 + |units[k]| <= |AnnexB(units)|
    ensures AnnexB(units)[Offset(units, k)..Offset(units, k) + 4] == StartCode
    ensures AnnexB(units)[Offset(units, k) + 4..Offset(units, k) + 4 + |units[k]|] == units[k]
  {
    var head, tail := AnnexBUnit(units[0]), AnnexB(units[1..]);
    AnnexBCons(units);
    if k == 0 {
      SliceBefore(head, tail, 0, 4);
      SliceBefore(head, tail, 4, 4 + |units[0]|);
    } else {
      OffsetCons(units, k);
      AnnexBLayout(units[1..], k - 1);
      var o, p := Offset(units[1..], k - 1), Offset(units, k);
      SliceFrom(head, tail, o, o + 4, p, p + 4);
      SliceFrom(head, tail, o + 4, o + 4 + |units[k]|, p + 4, p + 4 + |units[k]|);
    }
  }

  /** Unit `k`'s 4-byte prefix in the AVCC stream, at Offset(units, k), is
      its size as a big-endian field. */
  lemma {:induction false} AvccFrameFieldAt(units: seq<seq<byte>>, k: nat)
    requires k < |units| && Fits32(units)
    ensures Offset(units, k) + 4 + |units[k]| <= |AvccFrame(units)|
    ensures AvccFrame(units)[Offset(units, k)..Offset(units, k) + 4] == BigEndian(|units[k]|, 4)
  {
    AvccFrameCons(units);
    if k == 0 {
      FirstUnitAt(units);
    } else {
      AvccFrameFieldAt(units[1..], k - 1);
      FieldAfterFirst(units, k);
    }
  }

  /** Unit `k`'s payload follows its prefix in the AVCC stream byte for byte. */
  lemma {:induction false} AvccFramePayloadAt(units: seq<seq<byte>>, k: nat)
    requires k < |units| && Fits32(units)
    ensures Offset(units, k) + 4 + |units[k]| <= |AvccFrame(units)|
    ensures AvccFrame(units)[Offset(units, k) + 4..Offset(units, k) + 4 + |units[k]|] == units[k]
  {
    AvccFrameCons(units);
    if k == 0 {
      FirstUnitAt(units);
    } else {
      AvccFramePayloadAt(units[1..], k - 1);
      PayloadAfterFirst(units, k);
    }
  }

  /** The first unit of the AVCC stream: its size field, then its payload. */
  lemma FirstUnitAt(units: seq<seq<byte>>)
    requires units != [] && Fits32(units)
    ensures Offset(units, 0) + 4 + |units[0]| <= |AvccFrame(units)|
    ensures AvccFrame(units)[Offset(units, 0)..Offset(units, 0) + 4] == BigEndian(|units[0]|, 4)
    ensures AvccFrame(units)[Offset(units, 0) + 4..Offset(units, 0) + 4 + |units[0]|] == units[0]
  {
    AvccFrameCons(units);
    PartsOf(BigEndian(|units[0]|, 4), units[0], AvccFrame(units[1..]), Offset(units, 0) + 4,
            Offset(units, 0) + 4 + |units[0]|);
  }

  /** A size field found in the stream after the first unit is found in the
      whole stream, shifted by the first unit. */
  lemma FieldAfterFirst(units: seq<seq<byte>>, k: nat)
    requires 0 < k < |units| && Fits32(units) && Fits32(units[1..])
    requires Offset(units[1..], k - 1) + 4 + |units[1..][k - 1]| <= |AvccFrame(units[1..])|
    requires AvccFrame(units[1..])[Offset(units[1..], k - 1)..Offset(units[1..], k - 1) + 4]
          == BigEndian(|units[1..][k - 1]|, 4)
    ensures Offset(units, k) + 4 + |units[k]| <= |AvccFrame(units)|
    ensures AvccFrame(units)[Offset(units, k)..Offset(units, k) + 4] == BigEndian(|units[k]|, 4)
  {
    var head, tail := BigEndian(|units[0]|, 4) + units[0], AvccFrame(units[1..]);
    AvccFrameCons(units);
    OffsetCons(units, k);
    var o, p := Offset(units[1..], k - 1), Offset(units, k);
    SliceFrom(head, tail, o, o + 4, p, p + 4);
  }

  /** A payload found in the stream after the first unit is found in the
      whole stream, shifted by the first unit. */
  lemma PayloadAfterFirst(units: seq<seq<byte>>, k: nat)
    requires 0 < k < |units| && Fits32(units) && Fits32(units[1..])
    requires Offset(units[1..], k - 1) + 4 + |units[1..][k - 1]| <= |AvccFrame(units[1..])|
    requires AvccFrame(units[1..])[Offset(units[1..], k - 1) + 4..Offset(units[1..], k - 1) + 4 + |units[1..][k - 1]|]
          == units[1..][k - 1]
    ensures Offset(units, k) + 4 + |units[k]| <= |AvccFrame(units)|
    ensures AvccFrame(units)[Offset(units, k) + 4..Offset(units, k) + 4 + |units[k]|] == units[k]
  {
    var head, tail := BigEndian(|units[0]|, 4) + units[0], AvccFrame(units[1..]);
    AvccFrameCons(units);
    OffsetCons(units, k);
    var o, p := Offset(units[1..], k - 1), Offset(units, k);
    SliceFrom(head, tail, o + 4, o + 4 + |units[k]|, p + 4, p + 4 + |units[k]|);
  }

  /** The two stream framings differ only inside the 4-byte prefixes: a byte
      where they disagree lies in the prefix of some unit. */
  lemma {:induction false} FramingsDifferOnlyInPrefixes(units: seq<seq<byte>>, i: nat)
    requires Fits32(units) && i < |AvccFrame(units)|
    ensures |AnnexB(units)| == |AvccFrame(units)|
    ensures AnnexB(units)[i] != AvccFrame(units)[i] ==>
              exists k :: 0 <= k < |units| && Offset(units, k) <= i < Offset(units, k) + 4
  {
    FramingLengths(units);
    var u := units[0];
    var a, f := AnnexBUnit(u), BigEndian(|u|, 4) + u;
    assert AnnexB(units) == a + AnnexB(units[1..]);
    assert AvccFrame(units) == f + AvccFrame(units[1..]);
    if i < 4 {
      assert Offset(units, 0) == 0;
    } else if i < 4 + |u| {
      assert AnnexB(units)[i] == u[i - 4] == AvccFrame(units)[i];
    } else {
      Fits32Tail(units);
      var j := i - (4 + |u|);
      FramingsDifferOnlyInPrefixes(units[1..], j);
      assert AnnexB(units)[i] == AnnexB(units[1..])[j];
      assert AvccFrame(units)[i] == AvccFrame(units[1..])[j];
      if AnnexB(units)[i] != AvccFrame(units)[i] {
        var k :| 0 <= k < |units[1..]| && Offset(units[1..], k) <= j < Offset(units[1..], k) + 4;
        assert Offset(units, k + 1) == 4 + |u| + Offset(units[1..], k);
      }
    }
  }
}
