/**
  What the frame decoder guarantees, stated over the specification in
  `NutFrame` for all inputs: which codes are refused, how the flags and the
  stream are chosen, what timestamp is written back and when, how the size
  and the elision entry are settled, and how the payload is laid out.
 */
module FrameProperties {
  import opened Results
  import opened NutStream
  import opened Timestamps
  import opened MetaData
  import opened NutFrame

  /** The arguments `Decode` needs: the default stream and elision entry of the code exist. */
  predicate DecodeArgs(hdr: Header, code: nat, ts: seq<Token>, p: nat, shifts: seq<nat>, lasts: seq<int>)
  {
    code < |hdr.frameCodes| && p <= |ts| && |shifts| == |lasts| &&
    hdr.frameCodes[code].streamId < |lasts| && hdr.frameCodes[code].headerIdx < |hdr.elision|
  }

  /** Code 'N' and codes whose table flags are marked invalid are refused before anything is read or written. */
  lemma RefusedCodes(hdr: Header, code: nat, ts: seq<Token>, p: nat, shifts: seq<nat>, lasts: seq<int>)
    requires DecodeArgs(hdr, code, ts, p, shifts, lasts)
    ensures code == SyncCode ==> Decode(hdr, code, ts, p, shifts, lasts) == Decoding(Err(IllegalFrameCode), None)
    ensures code != SyncCode && Has(hdr.frameCodes[code].flags, FlagInvalid) ==>
      Decode(hdr, code, ts, p, shifts, lasts) == Decoding(Err(InvalidFrameCode), None)
    ensures Decode(hdr, code, ts, p, shifts, lasts).written.Some? ==>
      code != SyncCode && !Has(hdr.frameCodes[code].flags, FlagInvalid)
  {
  }

  /**
    A decoded frame's flags are the table's flags, toggled by the coded
    flags exactly when the table has the coded-flags bit; its stream is the
    one read after them when the effective flags say so, the table's
    otherwise.
   */
  lemma DecodedHead(hdr: Header, code: nat, ts: seq<Token>, p: nat, shifts: seq<nat>, lasts: seq<int>)
    requires DecodeArgs(hdr, code, ts, p, shifts, lasts)
    requires Decode(hdr, code, ts, p, shifts, lasts).outcome.Ok?
    ensures var fc, v := hdr.frameCodes[code], Decode(hdr, code, ts, p, shifts, lasts).outcome.value;
      var q := if Has(fc.flags, FlagCoded) then p + 1 else p;
      && v.flags == (if Has(fc.flags, FlagCoded) then fc.flags ^ Low64(ts[p].u) else fc.flags)
      && v.streamId < |lasts|
      && v.streamId == (if Has(v.flags, FlagStreamId) then ts[q].u else fc.streamId)
  {
    var fc := hdr.frameCodes[code];
    var flags := FlagsAt(fc, ts, p);
    assert HeadAt(hdr, code, ts, p, |lasts|).Ok?;
    assert flags.Ok?;
    var id := IndexAt(Has(flags.value.value, FlagStreamId), fc.streamId, |lasts|, IllegalStreamId, ts, flags.value.next);
    assert id.Ok?;
  }

  /** A stream id that is read must name an existing stream; otherwise decoding stops with nothing written. */
  lemma StreamIdChecked(hdr: Header, code: nat, ts: seq<Token>, p: nat, shifts: seq<nat>, lasts: seq<int>, flags: Parsed<bv64>)
    requires DecodeArgs(hdr, code, ts, p, shifts, lasts)
    requires code != SyncCode && !Has(hdr.frameCodes[code].flags, FlagInvalid)
    requires FlagsAt(hdr.frameCodes[code], ts, p) == Ok(flags) && Has(flags.value, FlagStreamId)
    requires flags.next < |ts| && ts[flags.next].Unsigned? && ts[flags.next].u >= |lasts|
    ensures Decode(hdr, code, ts, p, shifts, lasts) == Decoding(Err(IllegalStreamId), None)
  {
  }

  /**
    The timestamp written back to the selected stream. A coded value below
    2^S has the same low S bits as the timestamp, which lies in the window
    starting at `last - mask / 2` and is the representative of those bits
    nearest to `last`; a larger coded value is the timestamp plus 2^S; with
    no coded value the timestamp steps from `last` by the table's delta.
   */
  lemma WrittenPts(hdr: Header, code: nat, ts: seq<Token>, p: nat, shifts: seq<nat>, lasts: seq<int>, h: Head)
    requires DecodeArgs(hdr, code, ts, p, shifts, lasts)
    requires HeadAt(hdr, code, ts, p, |lasts|) == Ok(h)
    requires Has(h.flags, FlagCodedPts) ==> h.next < |ts| && ts[h.next].Unsigned?
    ensures Decode(hdr, code, ts, p, shifts, lasts).written.Some?
    ensures Decode(hdr, code, ts, p, shifts, lasts).written.value.stream == h.streamId
    ensures var shift, last := shifts[h.streamId], lasts[h.streamId];
      var pts := Decode(hdr, code, ts, p, shifts, lasts).written.value.pts;
      && (Has(h.flags, FlagCodedPts) && ts[h.next].u < Pow2(shift) ==>
            && pts % Pow2(shift) == ts[h.next].u
            && WindowStart(shift, last) <= pts <= WindowStart(shift, last) + Pow2(shift) - 1
            && forall x :: x % Pow2(shift) == ts[h.next].u ==> Distance(x, last) >= Distance(pts, last))
      && (Has(h.flags, FlagCodedPts) && ts[h.next].u >= Pow2(shift) ==> pts == ts[h.next].u - Pow2(shift))
      && (!Has(h.flags, FlagCodedPts) ==> pts == last + hdr.frameCodes[code].ptsDelta)
  {
    var shift, last := shifts[h.streamId], lasts[h.streamId];
    var pts := Decode(hdr, code, ts, p, shifts, lasts).written.value.pts;
    if Has(h.flags, FlagCodedPts) && ts[h.next].u < Pow2(shift) {
      var coded := ts[h.next].u;
      assert pts == Unwrap(coded, shift, last);
      UnwrapCongruent(coded, shift, last);
      UnwrapInWindow(coded, shift, last);
      forall x | x % Pow2(shift) == coded
        ensures Distance(x, last) >= Distance(pts, last)
      {
        UnwrapNearest(coded, shift, last, x);
      }
    }
  }

  /**
    The timestamp is written back before the size, index, version and
    payload checks: once the head and the timestamp decode, the write is
    part of the outcome even when a later check fails.
   */
  lemma WriteBackPrecedesChecks(hdr: Header, code: nat, ts: seq<Token>, p: nat, shifts: seq<nat>, lasts: seq<int>, h: Head, t: Parsed<int>)
    requires DecodeArgs(hdr, code, ts, p, shifts, lasts)
    requires HeadAt(hdr, code, ts, p, |lasts|) == Ok(h)
    requires PtsAt(hdr.frameCodes[code], h.flags, ts, h.next, shifts[h.streamId], lasts[h.streamId]) == Ok(t)
    ensures Decode(hdr, code, ts, p, shifts, lasts).written == Some(PtsWrite(h.streamId, t.value))
    ensures t.next <= |ts|
    ensures BodyAt(hdr, hdr.frameCodes[code], h.flags, ts, t.next).Err? ==>
      Decode(hdr, code, ts, p, shifts, lasts).outcome == Err(BodyAt(hdr, hdr.frameCodes[code], h.flags, ts, t.next).error)
  {
  }

  /**
    The size is `lsb + mul * msb` with the high part coded, `lsb` without.
    A size above 4096 forces elision entry 0; otherwise the entry is the
    coded index or the table's.
   */
  lemma FieldsSizeAndIndex(hdr: Header, fc: FrameCode, flags: bv64, ts: seq<Token>, p: nat)
    requires fc.headerIdx < |hdr.elision| && p <= |ts|
    requires FieldsAt(hdr, fc, flags, ts, p).Ok?
    ensures var f := FieldsAt(hdr, fc, flags, ts, p).value;
      var q := p + (if Has(flags, FlagSizeMsb) then 1 else 0) + (if Has(flags, FlagMatchTime) then 1 else 0);
      && f.size == fc.dataSizeLsb + (if Has(flags, FlagSizeMsb) then fc.dataSizeMul * ts[p].u else 0)
      && (f.size > MaxElidedSize ==> f.headerIdx == 0)
      && (f.size <= MaxElidedSize ==> f.headerIdx == if Has(flags, FlagHeaderIdx) then ts[q].u else fc.headerIdx)
  {
    var size := SizeAt(fc, flags, ts, p);
    assert size.Ok?;
    var afterMatchTime := MatchTimeAt(flags, ts, size.value.next);
    assert afterMatchTime.Ok?;
    var index := IndexAt(Has(flags, FlagHeaderIdx), fc.headerIdx, |hdr.elision|, IllegalHeaderIndex, ts, afterMatchTime.value);
    assert index.Ok?;
  }

  /** A coded elision index must exist in the table, whatever the size: a large frame does not excuse it. */
  lemma HeaderIndexChecked(hdr: Header, fc: FrameCode, flags: bv64, ts: seq<Token>, p: nat, q: nat)
    requires fc.headerIdx < |hdr.elision| && p <= |ts|
    requires SizeAt(fc, flags, ts, p).Ok? && MatchTimeAt(flags, ts, SizeAt(fc, flags, ts, p).value.next) == Ok(q)
    requires Has(flags, FlagHeaderIdx) && q < |ts| && ts[q].Unsigned? && ts[q].u >= |hdr.elision|
    ensures FieldsAt(hdr, fc, flags, ts, p) == Err(IllegalHeaderIndex)
  {
  }

  /** Side and meta data are refused in containers older than version 4. */
  lemma SideDataNeedsVersion(hdr: Header, flags: bv64, fields: Fields, ts: seq<Token>, p: nat)
    requires fields.headerIdx < |hdr.elision| && p <= |ts|
    requires Has(flags, FlagSmData) && hdr.version < SmDataVersion
    ensures DataAt(hdr, flags, fields, ts, p) == Err(SmDataNotAllowed)
  {
  }

  /**
    With the side-data flag in a version 4 container, the side and meta data
    are two metadata blocks decoded back to back.
   */
  lemma SideDataBlocks(version: int, flags: bv64, ts: seq<Token>, p: nat)
    requires p <= |ts| && Has(flags, FlagSmData)
    requires SideDataAt(version, flags, ts, p).Ok?
    ensures version >= SmDataVersion
    ensures var sm := SideDataAt(version, flags, ts, p).value;
      && MetaAt(ts, p).Ok?
      && sm.sideData == Some(MetaAt(ts, p).value.value)
      && MetaAt(ts, MetaAt(ts, p).value.next).Ok?
      && sm.metaData == Some(MetaAt(ts, MetaAt(ts, p).value.next).value.value)
      && sm.next == MetaAt(ts, MetaAt(ts, p).value.next).value.next
  {
    assert MetaAt(ts, p).Ok?;
  }

  /**
    The payload: its length is the size less the bytes of the side and meta
    data blocks (none without the side-data flag), it starts with the
    elision prefix and continues with the raw bytes that follow the blocks.
   */
  lemma DataLayout(hdr: Header, flags: bv64, fields: Fields, ts: seq<Token>, p: nat) returns (q: nat)
    requires fields.headerIdx < |hdr.elision| && p <= |ts|
    requires DataAt(hdr, flags, fields, ts, p).Ok?
    ensures p <= q <= |ts|
    ensures var d := DataAt(hdr, flags, fields, ts, p).value;
      SideDataAt(hdr.version, flags, ts, p) == Ok(SideData(d.sideData, d.metaData, q))
    ensures var d, e := DataAt(hdr, flags, fields, ts, p).value, hdr.elision[fields.headerIdx];
      && |d.data| + Span(ts, p, q) == fields.size
      && |e| <= |d.data| && d.data[..|e|] == e
      && d.next == q + |d.data| - |e| <= |ts|
      && (forall j | q <= j < d.next :: ts[j].Raw?)
      && (forall k | |e| <= k < |d.data| :: d.data[k] == ts[q + k - |e|].b)
  {
    var sm := SideDataAt(hdr.version, flags, ts, p);
    assert sm.Ok?;
    q := sm.value.next;
    var e := hdr.elision[fields.headerIdx];
    var payload := PayloadAt(e, fields.size - Span(ts, p, q), ts, q);
    assert payload.Ok?;
  }

  /**
    One frame decoded end to end: code 0 of a table whose entry codes the
    timestamp, with a one-byte elision prefix and a size of 3. With shift 8
    and last timestamp 1000, the coded value 130 becomes 898, written back
    to stream 0, and the payload is the prefix followed by the two raw bytes.
   */
  lemma DecodeExample()
    ensures var fc := FrameCode(FlagCodedPts, 0, 3, 1, 0, 0, 0);
      var hdr := Header(3, [fc], [[7]]);
      var ts := [Unsigned(130), Raw(1), Raw(2)];
      Decode(hdr, 0, ts, 0, [8], [1000]) ==
        Decoding(Ok(Decoded(0, FlagCodedPts, 898, None, None, [7, 1, 2], 3)), Some(PtsWrite(0, 898)))
  {
    var fc := FrameCode(FlagCodedPts, 0, 3, 1, 0, 0, 0);
    var hdr := Header(3, [fc], [[7]]);
    var ts := [Unsigned(130), Raw(1), Raw(2)];
    UnwrapExample();
    assert HeadAt(hdr, 0, ts, 0, 1) == Ok(Head(FlagCodedPts, 0, 0));
    assert PtsAt(fc, FlagCodedPts, ts, 0, 8, 1000) == Ok(Parsed(898, 1));
    assert FieldsAt(hdr, fc, FlagCodedPts, ts, 1) == Ok(Fields(3, 0, 1));
    assert Span(ts, 1, 1) == 0;
    var raw := RawAt(ts, 1, 2);
    assert raw.Ok? by {
      assert forall j | 1 <= j < 3 :: ts[j].Raw?;
    }
    assert raw.value.value == [1, 2] by {
      assert raw.value.value[0] == ts[1].b && raw.value.value[1] == ts[2].b;
    }
    var prefix: seq<byte> := [7];
    assert prefix + raw.value.value == [7, 1, 2];
    assert PayloadAt(prefix, 3, ts, 1) == Ok(Parsed([7, 1, 2], 3));
    assert DataAt(hdr, FlagCodedPts, Fields(3, 0, 1), ts, 1) == Ok(Payload(None, None, [7, 1, 2], 3));
  }
}
