/** The stream mode of the converter: an AVCC stream (each NAL unit preceded
    by its size as a 4-byte big-endian field) is rewritten in place into
    Annex B by overwriting every size field with the start code 00 00 00 01,
    and the whole buffer is then appended to the output. */
module AvccStream {
  import opened Bytes
  import opened Framing
  import NalHeader

  /** The units split off the front of a stream, and the bytes from the
      first size field that does not fit on. */
  datatype Split = Split(units: seq<seq<byte>>, rest: seq<byte>)

  /** The size field at the front of `s`. */
  function UnitSize(s: seq<byte>): nat
    requires 4 <= |s|
  {
    Be32(s[0], s[1], s[2], s[3])
  }

  /** `s` starts with a size field and the whole unit it announces. */
  predicate UnitFits(s: seq<byte>) {
    4 <= |s| && 4 + UnitSize(s) <= |s|
  }

  /** Walks the stream unit by unit, as the converter's cursor does, and stops
      at the end or at a unit that would run past it. */
  function SplitUnits(s: seq<byte>): (r: Split)
    ensures r.rest == [] || !UnitFits(r.rest)
    decreases |s|
  {
    if !UnitFits(s) then Split([], s)
    else
      var next := SplitUnits(s[4 + UnitSize(s)..]);
      Split([s[4..4 + UnitSize(s)]] + next.units, next.rest)
  }

  /** A stream the converter handles completely: every size field announces a
      unit that fits, and the last unit ends exactly at the end. */
  predicate WellFormed(s: seq<byte>) {
    SplitUnits(s).rest == []
  }

  /** Splitting loses nothing: the stream is the AVCC framing of its units,
      then the rest. */
  lemma {:induction false} SplitLayout(s: seq<byte>)
    ensures var sp := SplitUnits(s); Fits32(sp.units) && s == AvccFrame(sp.units) + sp.rest
    decreases |s|
  {
    if UnitFits(s) {
      var n := UnitSize(s);
      var u, tail := s[4..4 + n], s[4 + n..];
      SplitLayout(tail);
      var next := SplitUnits(tail);
      var all := [u] + next.units;
      assert Fits32([u]) by {
        assert [u][0] == u;
      }
      Fits32Concat([u], next.units);
      AvccFrameCons(all);
      assert all[0] == u && all[1..] == next.units;
      UnitThenRest(s);
      Regroup(BigEndian(n, 4), u, AvccFrame(next.units), next.rest);
    }
  }

  /** A unit that fits is its size field, its payload, then the rest. */
  lemma UnitThenRest(s: seq<byte>)
    requires UnitFits(s)
    ensures var n := UnitSize(s); s == BigEndian(n, 4) + s[4..4 + n] + s[4 + n..]
  {
    Slices3(s, 4, 4 + UnitSize(s));
    Front4(s);
    BigEndianOfBe32(s[0], s[1], s[2], s[3]);
  }

  /** Framing a list of units in AVCC form, followed by bytes where splitting
      stops, splits back into those units and those bytes. */
  lemma {:induction false} SplitAvccFrame(units: seq<seq<byte>>, rest: seq<byte>)
    requires Fits32(units) && (rest == [] || !UnitFits(rest))
    ensures SplitUnits(AvccFrame(units) + rest) == Split(units, rest)
    decreases |units|
  {
    if units == [] {
      assert AvccFrame(units) + rest == rest;
      if rest != [] {
        assert !UnitFits(rest);
      }
    } else {
      var u, more := units[0], units[1..];
      Fits32Tail(units);
      SplitAvccFrame(more, rest);
      var tail := AvccFrame(more) + rest;
      assert AvccFrame(units) == BigEndian(|u|, 4) + u + AvccFrame(more);
      Regroup(BigEndian(|u|, 4), u, AvccFrame(more), rest);
      UnitAt(u, tail);
      assert [u] + more == units;
    }
  }

  /** A size field written for `u`, then `u`, then anything: the field reads
      back as |u| and the unit fits. */
  lemma UnitAt(u: seq<byte>, tail: seq<byte>)
    requires |u| < 0x1_0000_0000
    ensures var s := BigEndian(|u|, 4) + u + tail;
      UnitFits(s) && UnitSize(s) == |u| && s[4..4 + |u|] == u && s[4 + |u|..] == tail
  {
    var f := BigEndian(|u|, 4);
    var s := f + u + tail;
    SliceAfter(f, u + tail, 0, |u|);
    Regroup([], f, u, tail);
    assert s[0] == f[0] && s[1] == f[1] && s[2] == f[2] && s[3] == f[3];
    Be32OfBigEndian(|u|);
  }

  /** A stream is well formed exactly when it is the AVCC framing of some
      list of units. */
  lemma WellFormedIsFramed(s: seq<byte>)
    ensures var units := SplitUnits(s).units;
      Fits32(units) && (WellFormed(s) <==> s == AvccFrame(units))
    ensures WellFormed(s) ==> Offset(SplitUnits(s).units, |SplitUnits(s).units|) == |s|
  {
    var sp := SplitUnits(s);
    SplitLayout(s);
    FramingLengths(sp.units);
    if s == AvccFrame(sp.units) {
      assert |sp.rest| == 0;
    }
    if WellFormed(s) {
      assert s == AvccFrame(sp.units) + [];
    }
  }

  /** The stream after conversion: every unit in Annex B form, then the bytes
      from the first unit that does not fit on, unchanged. */
  function Convert(s: seq<byte>): (r: seq<byte>)
    ensures |r| == |s|
  {
    var sp := SplitUnits(s);
    SplitLayout(s);
    FramingLengths(sp.units);
    AnnexB(sp.units) + sp.rest
  }

  /** Conversion changes only bytes that were inside a unit's size field. */
  lemma ConvertChangesOnlySizeFields(s: seq<byte>, i: nat)
    requires i < |s|
    ensures var units := SplitUnits(s).units;
      Convert(s)[i] != s[i] ==> exists k :: 0 <= k < |units| && Offset(units, k) <= i < Offset(units, k) + 4
  {
    var sp := SplitUnits(s);
    SplitLayout(s);
    FramingLengths(sp.units);
    var n := |AvccFrame(sp.units)|;
    if i < n {
      assert Convert(s)[i] == AnnexB(sp.units)[i];
      assert s[i] == AvccFrame(sp.units)[i];
      FramingsDifferOnlyInPrefixes(sp.units, i);
    } else {
      assert Convert(s)[i] == sp.rest[i - n] == s[i];
    }
  }

  /** Converting the AVCC framing of a list of units gives their Annex B
      framing. */
  lemma ConvertFramed(units: seq<seq<byte>>)
    requires Fits32(units)
    ensures Convert(AvccFrame(units)) == AnnexB(units)
  {
    SplitAvccFrame(units, []);
    assert AvccFrame(units) + [] == AvccFrame(units);
    assert AnnexB(units) + [] == AnnexB(units);
  }

  /** What the converter reports for one unit: its size and, when it has a
      first byte, the decoded NAL unit header. */
  datatype UnitLog = UnitLog(size: nat, header: Option<NalHeader.Header>)

  function LogOf(u: seq<byte>): (l: UnitLog)
    ensures l.size == |u| && (l.header.Some? <==> |u| > 0)
  {
    UnitLog(|u|, if |u| > 0 then Some(NalHeader.Decode(u[0])) else None)
  }

  /** The reports for a list of units, in order. */
  function Logs(units: seq<seq<byte>>): (r: seq<UnitLog>)
    ensures |r| == |units|
  {
    if units == [] then [] else Logs(units[..|units| - 1]) + [LogOf(units[|units| - 1])]
  }

  /** The `k`-th report is that of the `k`-th unit. */
  lemma {:induction false} LogsAt(units: seq<seq<byte>>, k: nat)
    requires k < |units|
    ensures Logs(units)[k] == LogOf(units[k])
    decreases |units|
  {
    var init := units[..|units| - 1];
    if k < |init| {
      LogsAt(init, k);
      assert init[k] == units[k];
    }
  }

  /** How the stream walk ended: every unit converted, or stopped at the size
      field at offset `at` because that unit would run past the end. */
  datatype StreamStatus = Converted | TruncatedUnit(at: nat)

  /** Overwrites the four bytes at `at` with the start code. */
  method WriteStartCode(a: array<byte>, at: nat)
    requires at + 4 <= a.Length
    modifies a
    ensures a[..] == old(a[..])[..at] + StartCode + old(a[..])[at + 4..]
  {
    ghost var before := a[..];
    a[at] := 0;
    a[at + 1] := 0;
    a[at + 2] := 0;
    a[at + 3] := 1;
    assert a[..] == before[..at] + StartCode + before[at + 4..] by {
      assert a[..at] == before[..at] && a[at + 4..] == before[at + 4..];
      assert a[at..at + 4] == StartCode;
      Slices3(a[..], at, at + 4);
    }
  }

  /** The stream branch of the converter over the buffer `a`, with `sink` the
      output file's contents before. Each size field is overwritten by the
      start code in place and each unit is reported; on success the whole
      buffer is appended to the sink. A unit that would run past the end is
      reported as a failure at its offset instead of being read: the units
      before it stay converted and the sink is left as it was. */
  method ConvertStream(a: array<byte>, sink: seq<byte>)
    returns (status: StreamStatus, log: seq<UnitLog>, out: seq<byte>)
    modifies a
    ensures a[..] == Convert(old(a[..]))
    ensures var sp := SplitUnits(old(a[..]));
      status == (if sp.rest == [] then Converted else TruncatedUnit(a.Length - |sp.rest|))
    ensures log == Logs(SplitUnits(old(a[..])).units)
    ensures out == if status == Converted then sink + a[..] else sink
  {
    ghost var s := a[..];
    ghost var done: seq<seq<byte>> := [];
    var offset := 0;
    log := [];
    assert s[offset..] == s;
    while offset < a.Length
      invariant offset <= a.Length
      invariant Walked(s, offset, done, a[..], log)
    {
      ghost var c := a[..];
      if offset + 4 > a.Length {
        Stopped(s, offset, done, c);
        return TruncatedUnit(offset), log, sink;
      }
      var size := Be32(a[offset], a[offset + 1], a[offset + 2], a[offset + 3]);
      if offset + 4 + size > a.Length {
        Stopped(s, offset, done, c);
        return TruncatedUnit(offset), log, sink;
      }
      var entry := UnitLog(size, if size > 0 then Some(NalHeader.Decode(a[offset + 4])) else None);
      ghost var u := Step(s, offset, done, c, log, size, entry);
      WriteStartCode(a, offset);
      log := log + [entry];
      done := done + [u];
      offset := offset + 4 + size;
    }
    Stopped(s, offset, done, a[..]);
    status, out := Converted, sink + a[..];
  }

  /** Where the walk stops, the units converted so far are all the units
      of the stream and the bytes from the cursor on are the rest. */
  lemma Stopped(s: seq<byte>, offset: nat, done: seq<seq<byte>>, c: seq<byte>)
    requires offset <= |s| && Fits32(done) && s == AvccFrame(done) + s[offset..]
    requires c == AnnexB(done) + s[offset..]
    requires offset + 4 > |c| || 4 + Be32(c[offset], c[offset + 1], c[offset + 2], c[offset + 3]) > |c| - offset
    ensures SplitUnits(s) == Split(done, s[offset..])
    ensures c == Convert(s) && |s[offset..]| == |s| - offset
  {
    FramingLengths(done);
    var t := s[offset..];
    if offset == |s| {
      assert t == [];
    } else if 4 <= |t| {
      assert c[offset..offset + 4] == t[..4];
    }
    SplitAvccFrame(done, t);
  }

  /** The walk with its cursor at `offset`: the bytes of `s` before it are
      the units `done` in AVCC form, the buffer `c` holds them in Annex B
      form followed by the untouched rest of `s`, and `log` reports them. */
  ghost predicate Walked(s: seq<byte>, offset: nat, done: seq<seq<byte>>, c: seq<byte>, log: seq<UnitLog>) {
    offset <= |s| == |c| && Fits32(done) && s == AvccFrame(done) + s[offset..]
    && c == AnnexB(done) + s[offset..] && log == Logs(done)
  }

  /** One step of the walk: the unit at the cursor joins the units read so
      far, the start code written over its size field leaves it in Annex B
      form, and its report joins the others. */
  lemma Step(s: seq<byte>, offset: nat, done: seq<seq<byte>>, c: seq<byte>, log: seq<UnitLog>,
             size: nat, entry: UnitLog)
    returns (u: seq<byte>)
    requires Walked(s, offset, done, c, log)
    requires offset + 4 <= |c| && size == Be32(c[offset], c[offset + 1], c[offset + 2], c[offset + 3])
    requires offset + 4 + size <= |c|
    requires entry == UnitLog(size, if size > 0 then Some(NalHeader.Decode(c[offset + 4])) else None)
    ensures Walked(s, offset + 4 + size, done + [u], c[..offset] + StartCode + c[offset + 4..], log + [entry])
  {
    u := Advance(s, offset, done, c, size);
    Rewrite(s, offset, done, c, u);
  }

  /** One step of the walk at the cursor: the unit there fits, so it joins
      the units read so far and the cursor moves past it. */
  lemma Advance(s: seq<byte>, offset: nat, done: seq<seq<byte>>, c: seq<byte>, size: nat)
    returns (u: seq<byte>)
    requires offset <= |s| == |c| && Fits32(done) && s == AvccFrame(done) + s[offset..]
    requires c == AnnexB(done) + s[offset..]
    requires offset + 4 <= |c| && size == Be32(c[offset], c[offset + 1], c[offset + 2], c[offset + 3])
    requires offset + 4 + size <= |c|
    ensures |u| == size && u == s[offset + 4..offset + 4 + size] && u == c[offset + 4..offset + 4 + size]
    ensures Fits32(done + [u]) && s == AvccFrame(done + [u]) + s[offset + 4 + size..]
  {
    FramingLengths(done);
    var f, t := AvccFrame(done), s[offset..];
    u := t[4..4 + size];
    UnitAfter(f, AnnexB(done), t, offset, size);
    AvccFrameSnoc(done, u);
  }

  /** The unit behind the size field at `o`, in a buffer that holds `f` or
      `a` before `o` and `t` from `o` on. */
  lemma UnitAfter(f: seq<byte>, a: seq<byte>, t: seq<byte>, o: nat, size: nat)
    requires |f| == o == |a| && 4 <= |t| && size == Be32((a + t)[o], (a + t)[o + 1], (a + t)[o + 2], (a + t)[o + 3])
    requires 4 + size <= |t|
    ensures var u := t[4..4 + size];
      (f + t)[o + 4..o + 4 + size] == u && (a + t)[o + 4..o + 4 + size] == u
      && (f + t)[o + 4 + size..] == t[4 + size..]
      && f + t == f + BigEndian(size, 4) + u + t[4 + size..]
  {
    FourAt(a, t, o);
    SliceAt(f, t, o, 4, 4 + size);
    SliceAt(a, t, o, 4, 4 + size);
    SliceAt(f, t, o, 4 + size, 4 + size);
    UnitThenRest(t);
    Regroup(f, BigEndian(size, 4), t[4..4 + size], t[4 + size..]);
  }

  /** Writing the start code over the size field at the cursor leaves the
      unit there in Annex B form, and its report joins the others. */
  lemma Rewrite(s: seq<byte>, offset: nat, done: seq<seq<byte>>, c: seq<byte>, u: seq<byte>)
    requires offset + 4 + |u| <= |s| == |c| && Fits32(done) && s == AvccFrame(done) + s[offset..]
    requires c == AnnexB(done) + s[offset..] && u == c[offset + 4..offset + 4 + |u|]
    ensures c[..offset] + StartCode + c[offset + 4..] == AnnexB(done + [u]) + s[offset + 4 + |u|..]
    ensures Logs(done + [u])
         == Logs(done) + [UnitLog(|u|, if |u| > 0 then Some(NalHeader.Decode(c[offset + 4])) else None)]
  {
    RewriteBytes(s, offset, done, c, u);
    LogsSnoc(done, u);
    if |u| > 0 {
      assert u[0] == c[offset + 4];
    }
  }

  /** The bytes of one rewrite step: the start code over the size field at
      the cursor extends the Annex B prefix by the unit there. */
  lemma RewriteBytes(s: seq<byte>, offset: nat, done: seq<seq<byte>>, c: seq<byte>, u: seq<byte>)
    requires offset + 4 + |u| <= |s| == |c| && Fits32(done) && s == AvccFrame(done) + s[offset..]
    requires c == AnnexB(done) + s[offset..] && u == c[offset + 4..offset + 4 + |u|]
    ensures c[..offset] + StartCode + c[offset + 4..] == AnnexB(done + [u]) + s[offset + 4 + |u|..]
  {
    FramingLengths(done);
    var a, t := AnnexB(done), s[offset..];
    assert |a| == offset;
    Overwrite(a, t, StartCode, u);
    DropDrop(s, offset, 4 + |u|);
    AnnexBSnoc(done, u);
  }

  /** Appending a unit appends its report. */
  lemma LogsSnoc(units: seq<seq<byte>>, u: seq<byte>)
    ensures Logs(units + [u]) == Logs(units) + [LogOf(u)]
  {
    assert (units + [u])[..|units|] == units;
  }
}
