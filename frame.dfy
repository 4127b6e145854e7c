/**
  Decoding of one NUT frame record. A one-byte frame code selects an entry
  of the header's frame code table, which supplies default flags, stream,
  size, elision prefix and timestamp step; the flags then say which fields
  are coded explicitly. The decoding is given twice: as specification
  functions over the token sequence, one per phase of the record, and as
  the methods of `Frame`, which update the frame's fields, the selected
  stream's last timestamp and the reader, and are proved to agree with the
  specification.
 */
module NutFrame {
  import opened Results
  import opened NutStream
  import opened Timestamps
  import opened MetaData

  // Frame flags. The key-frame and end-of-relevance flags are carried
  // along but never consulted while decoding.
  const FlagKey: bv64 := 1
  const FlagEor: bv64 := 2
  const FlagCodedPts: bv64 := 8
  const FlagStreamId: bv64 := 16
  const FlagSizeMsb: bv64 := 32
  const FlagChecksum: bv64 := 64
  const FlagReserved: bv64 := 128
  const FlagSmData: bv64 := 256
  const FlagHeaderIdx: bv64 := 1024
  const FlagMatchTime: bv64 := 2048
  const FlagCoded: bv64 := 4096
  const FlagInvalid: bv64 := 8192

  /** The code 'N', which starts a startcode and is never a frame code. */
  const SyncCode: nat := 78

  /** Frames larger than this always use elision entry 0. */
  const MaxElidedSize: int := 4096

  /** The first container version that allows side and meta data in frames. */
  const SmDataVersion: int := 4

  predicate Has(flags: bv64, flag: bv64)
  {
    flags & flag == flag
  }

  /** The low 64 bits of a decoded integer, as a Java `long` holds them. */
  function Low64(u: nat): bv64
  {
    (u % 0x1_0000_0000_0000_0000) as bv64
  }

  datatype Option<T> = None | Some(value: T)

  /** One entry of the frame code table. */
  datatype FrameCode = FrameCode(
    flags: bv64,
    streamId: nat,
    dataSizeLsb: int,
    dataSizeMul: int,
    headerIdx: nat,
    ptsDelta: int,
    reservedCount: int)

  /** The parts of the main header the frame decoder consults. */
  datatype Header = Header(version: int, frameCodes: seq<FrameCode>, elision: seq<seq<byte>>)

  /** A stream: its timestamp shift is fixed by its header; its last timestamp moves with each frame. */
  class Stream {
    const msbPtsShift: nat
    var lastPts: int

    constructor (msbPtsShift: nat, lastPts: int)
      ensures this.msbPtsShift == msbPtsShift && this.lastPts == lastPts
    {
      this.msbPtsShift := msbPtsShift;
      this.lastPts := lastPts;
    }
  }

  function Shifts(streams: seq<Stream>): (r: seq<nat>)
    ensures |r| == |streams| && forall i | 0 <= i < |streams| :: r[i] == streams[i].msbPtsShift
  {
    seq(|streams|, i requires 0 <= i < |streams| => streams[i].msbPtsShift)
  }

  function LastPts(streams: seq<Stream>): (r: seq<int>)
    reads streams
    ensures |r| == |streams| && forall i | 0 <= i < |streams| :: r[i] == streams[i].lastPts
  {
    seq(|streams|, i requires 0 <= i < |streams| reads streams => streams[i].lastPts)
  }

  // ---------------------------------------------------------------------
  // Specification, phase by phase.

  /** The effective flags: the table's flags, XORed with explicitly coded flags when the table says so. */
  function FlagsAt(fc: FrameCode, ts: seq<Token>, p: nat): (r: Result<Parsed<bv64>>)
    requires p <= |ts|
    ensures r.Ok? <==> !Has(fc.flags, FlagCoded) || (p < |ts| && ts[p].Unsigned?)
    ensures r.Ok? ==> r.value.value == (if Has(fc.flags, FlagCoded) then fc.flags ^ Low64(ts[p].u) else fc.flags)
    ensures r.Ok? ==> r.value.next == (if Has(fc.flags, FlagCoded) then p + 1 else p)
    ensures r.Err? ==> r.error == ReadFailure
  {
    if Has(fc.flags, FlagCoded) then
      var coded :- UnsignedAt(ts, p);
      Ok(Parsed(fc.flags ^ Low64(coded.value), coded.next))
    else
      Ok(Parsed(fc.flags, p))
  }

  /**
    An index that is either read (when `present`) and then checked against
    `bound`, or taken from the table unchecked. Used for the stream id and
    the elision header index.
   */
  function IndexAt(present: bool, default: nat, bound: nat, tooLarge: Error, ts: seq<Token>, p: nat): (r: Result<Parsed<nat>>)
    requires p <= |ts|
    ensures present ==> (r.Ok? <==> p < |ts| && ts[p].Unsigned? && ts[p].u < bound)
    ensures present && r.Ok? ==> r.value == Parsed(ts[p].u, p + 1)
    ensures present && p < |ts| && ts[p].Unsigned? && ts[p].u >= bound ==> r == Err(tooLarge)
    ensures present && !(p < |ts| && ts[p].Unsigned?) ==> r == Err(ReadFailure)
    ensures !present ==> r == Ok(Parsed(default, p))
  {
    if present then
      var index :- UnsignedAt(ts, p);
      if index.value >= bound then Err(tooLarge) else Ok(index)
    else
      Ok(Parsed(default, p))
  }

  /** Lines 83-116: the code checks, the effective flags and the stream. */
  datatype Head = Head(flags: bv64, streamId: nat, next: nat)

  function HeadAt(hdr: Header, code: nat, ts: seq<Token>, p: nat, streamCount: nat): (r: Result<Head>)
    requires code < |hdr.frameCodes| && p <= |ts|
    requires hdr.frameCodes[code].streamId < streamCount
    ensures r.Ok? ==> r.value.streamId < streamCount && p <= r.value.next <= |ts|
  {
    if code == SyncCode then
      Err(IllegalFrameCode)
    else if Has(hdr.frameCodes[code].flags, FlagInvalid) then
      Err(InvalidFrameCode)
    else
      var fc := hdr.frameCodes[code];
      var flags :- FlagsAt(fc, ts, p);
      var id :- IndexAt(Has(flags.value, FlagStreamId), fc.streamId, streamCount, IllegalStreamId, ts, flags.next);
      Ok(Head(flags.value, id.value, id.next))
  }

  /** Lines 119-130: the timestamp, coded against the stream's last timestamp or stepped from it. */
  function PtsAt(fc: FrameCode, flags: bv64, ts: seq<Token>, p: nat, shift: nat, last: int): (r: Result<Parsed<int>>)
    requires p <= |ts|
    ensures Has(flags, FlagCodedPts) ==> (r.Ok? <==> p < |ts| && ts[p].Unsigned?)
    ensures Has(flags, FlagCodedPts) && r.Ok? ==> r.value == Parsed(CodedPts(ts[p].u, shift, last), p + 1)
    ensures !Has(flags, FlagCodedPts) ==> r == Ok(Parsed(last + fc.ptsDelta, p))
  {
    if Has(flags, FlagCodedPts) then
      var coded :- UnsignedAt(ts, p);
      Ok(Parsed(CodedPts(coded.value, shift, last), coded.next))
    else
      Ok(Parsed(last + fc.ptsDelta, p))
  }

  /** Lines 133-136: the payload size, `lsb + mul * msb` when the high part is coded. */
  function SizeAt(fc: FrameCode, flags: bv64, ts: seq<Token>, p: nat): (r: Result<Parsed<int>>)
    requires p <= |ts|
    ensures r.Ok? <==> !Has(flags, FlagSizeMsb) || (p < |ts| && ts[p].Unsigned?)
    ensures r.Ok? ==> r.value.value == fc.dataSizeLsb + (if Has(flags, FlagSizeMsb) then fc.dataSizeMul * ts[p].u else 0)
    ensures r.Ok? ==> r.value.next == (if Has(flags, FlagSizeMsb) then p + 1 else p)
  {
    if Has(flags, FlagSizeMsb) then
      var msb :- UnsignedAt(ts, p);
      Ok(Parsed(fc.dataSizeLsb + fc.dataSizeMul * msb.value, msb.next))
    else
      Ok(Parsed(fc.dataSizeLsb, p))
  }

  /** Lines 137-139: the match-time delta is read and dropped. */
  function MatchTimeAt(flags: bv64, ts: seq<Token>, p: nat): (r: Result<nat>)
    requires p <= |ts|
    ensures r.Ok? <==> !Has(flags, FlagMatchTime) || (p < |ts| && ts[p].Signed?)
    ensures r.Ok? ==> r.value == (if Has(flags, FlagMatchTime) then p + 1 else p)
  {
    if Has(flags, FlagMatchTime) then
      var delta :- SignedAt(ts, p);
      Ok(delta.next)
    else
      Ok(p)
  }

  /** Lines 147-149: the number of reserved values, coded or from the table. */
  function ReservedAt(fc: FrameCode, flags: bv64, ts: seq<Token>, p: nat): (r: Result<Parsed<int>>)
    requires p <= |ts|
    ensures r.Ok? <==> !Has(flags, FlagReserved) || (p < |ts| && ts[p].Unsigned?)
    ensures r.Ok? ==> r.value == (if Has(flags, FlagReserved) then Parsed(ts[p].u, p + 1) else Parsed(fc.reservedCount, p))
  {
    if Has(flags, FlagReserved) then
      var count :- UnsignedAt(ts, p);
      Ok(Parsed(count.value, count.next))
    else
      Ok(Parsed(fc.reservedCount, p))
  }

  /** Lines 151-153: `n` unsigned values are read and dropped; a count of zero or less reads nothing. */
  function SkipUnsigned(ts: seq<Token>, p: nat, n: int): (r: Result<nat>)
    requires p <= |ts|
    ensures r.Ok? <==> n <= 0 || (p + n <= |ts| && forall j | p <= j < p + n :: ts[j].Unsigned?)
    ensures r.Ok? ==> r.value == p + (if n > 0 then n else 0)
    ensures r.Err? ==> r.error == ReadFailure
    decreases if n > 0 then n else 0
  {
    if n <= 0 then
      Ok(p)
    else
      var q :- SkipUnsigned(ts, p, n - 1);
      var discarded :- UnsignedAt(ts, q);
      Ok(discarded.next)
  }

  /** Lines 155-158: the checksum is read and not checked. */
  function ChecksumAt(flags: bv64, ts: seq<Token>, p: nat): (r: Result<nat>)
    requires p <= |ts|
    ensures r.Ok? <==> !Has(flags, FlagChecksum) || (p < |ts| && ts[p].Fixed32?)
    ensures r.Ok? ==> r.value == (if Has(flags, FlagChecksum) then p + 1 else p)
  {
    if Has(flags, FlagChecksum) then
      var checksum :- Fixed32At(ts, p);
      Ok(checksum.next)
    else
      Ok(p)
  }

  /** The coded fields after the timestamp: the declared size and the elision entry used. */
  datatype Fields = Fields(size: int, headerIdx: nat, next: nat)

  /** Lines 147-158: the reserved values and the checksum, read and dropped. */
  function DroppedAt(fc: FrameCode, flags: bv64, ts: seq<Token>, p: nat): (r: Result<nat>)
    requires p <= |ts|
    ensures r.Ok? ==> p <= r.value <= |ts|
    ensures r.Err? ==> r.error == ReadFailure
  {
    var reserved :- ReservedAt(fc, flags, ts, p);
    var afterReserved :- SkipUnsigned(ts, reserved.next, reserved.value);
    ChecksumAt(flags, ts, afterReserved)
  }

  /** Lines 133-162. */
  function FieldsAt(hdr: Header, fc: FrameCode, flags: bv64, ts: seq<Token>, p: nat): (r: Result<Fields>)
    requires fc.headerIdx < |hdr.elision| && p <= |ts|
    ensures r.Ok? ==> r.value.headerIdx < |hdr.elision| && p <= r.value.next <= |ts|
  {
    var size :- SizeAt(fc, flags, ts, p);
    var afterMatchTime :- MatchTimeAt(flags, ts, size.next);
    var index :- IndexAt(Has(flags, FlagHeaderIdx), fc.headerIdx, |hdr.elision|, IllegalHeaderIndex, ts, afterMatchTime);
    var afterDropped :- DroppedAt(fc, flags, ts, index.next);
    Ok(Fields(size.value, if size.value > MaxElidedSize then 0 else index.value, afterDropped))
  }

  /** The optional side data and meta data blocks. */
  datatype SideData = SideData(sideData: Option<Meta>, metaData: Option<Meta>, next: nat)

  /** Lines 165-179. */
  function SideDataAt(version: int, flags: bv64, ts: seq<Token>, p: nat): (r: Result<SideData>)
    requires p <= |ts|
    ensures r.Ok? ==> p <= r.value.next <= |ts|
    ensures Has(flags, FlagSmData) && version < SmDataVersion ==> r == Err(SmDataNotAllowed)
    ensures !Has(flags, FlagSmData) ==> r == Ok(SideData(None, None, p))
    ensures Has(flags, FlagSmData) && r.Ok? ==> r.value.sideData.Some? && r.value.metaData.Some?
  {
    if Has(flags, FlagSmData) then
      if version < SmDataVersion then
        Err(SmDataNotAllowed)
      else
        var side :- MetaAt(ts, p);
        var meta :- MetaAt(ts, side.next);
        Ok(SideData(Some(side.value), Some(meta.value), meta.next))
    else
      Ok(SideData(None, None, p))
  }

  /**
    Lines 182-186: a payload of `size` bytes, the elision prefix followed by
    `size - |elision|` bytes read from the input. A size that cannot hold
    the prefix fails.
   */
  function PayloadAt(elision: seq<byte>, size: int, ts: seq<Token>, p: nat): (r: Result<Parsed<seq<byte>>>)
    ensures r.Ok? <==> |elision| <= size && RawAt(ts, p, size - |elision|).Ok?
    ensures size < |elision| ==> r == Err(PayloadTooSmall)
    ensures r.Ok? ==> |r.value.value| == size && r.value.value[..|elision|] == elision
    ensures r.Ok? ==> forall k | |elision| <= k < size :: r.value.value[k] == ts[p + k - |elision|].b
    ensures r.Ok? ==> r.value.next == p + size - |elision|
  {
    if size < |elision| then
      Err(PayloadTooSmall)
    else
      var raw :- RawAt(ts, p, size - |elision|);
      assert (elision + raw.value)[..|elision|] == elision;
      Ok(Parsed(elision + raw.value, raw.next))
  }

  /** What follows the coded fields. */
  datatype Payload = Payload(sideData: Option<Meta>, metaData: Option<Meta>, data: seq<byte>, next: nat)

  /** Lines 165-186: side and meta data, whose bytes count against the size, then the payload. */
  function DataAt(hdr: Header, flags: bv64, fields: Fields, ts: seq<Token>, p: nat): (r: Result<Payload>)
    requires fields.headerIdx < |hdr.elision| && p <= |ts|
  {
    var sm :- SideDataAt(hdr.version, flags, ts, p);
    var payload :- PayloadAt(hdr.elision[fields.headerIdx], fields.size - Span(ts, p, sm.next), ts, sm.next);
    Ok(Payload(sm.sideData, sm.metaData, payload.value, payload.next))
  }

  /** Lines 133-186: everything after the timestamp. */
  function BodyAt(hdr: Header, fc: FrameCode, flags: bv64, ts: seq<Token>, p: nat): (r: Result<Payload>)
    requires fc.headerIdx < |hdr.elision| && p <= |ts|
  {
    var fields :- FieldsAt(hdr, fc, flags, ts, p);
    DataAt(hdr, flags, fields, ts, fields.next)
  }

  /** A decoded frame. */
  datatype Decoded = Decoded(
    streamId: nat,
    flags: bv64,
    pts: int,
    sideData: Option<Meta>,
    metaData: Option<Meta>,
    data: seq<byte>,
    next: nat)

  /** The write of a timestamp back to a stream. */
  datatype PtsWrite = PtsWrite(stream: nat, pts: int)

  /**
    The outcome of decoding a frame, and the timestamp written back to a
    stream, if decoding got that far. The write happens before the later
    checks, so it is recorded even when decoding then fails.
   */
  datatype Decoding = Decoding(outcome: Result<Decoded>, written: Option<PtsWrite>)

  /** Lines 82-186: a whole frame, given each stream's timestamp shift and last timestamp. */
  function Decode(hdr: Header, code: nat, ts: seq<Token>, p: nat, shifts: seq<nat>, lasts: seq<int>): (d: Decoding)
    requires code < |hdr.frameCodes| && p <= |ts| && |shifts| == |lasts|
    requires hdr.frameCodes[code].streamId < |lasts| && hdr.frameCodes[code].headerIdx < |hdr.elision|
    ensures d.written.Some? ==> d.written.value.stream < |lasts|
    ensures d.outcome.Ok? ==> d.written == Some(PtsWrite(d.outcome.value.streamId, d.outcome.value.pts))
  {
    var fc := hdr.frameCodes[code];
    match HeadAt(hdr, code, ts, p, |lasts|)
    case Err(e) => Decoding(Err(e), None)
    case Ok(h) =>
      match PtsAt(fc, h.flags, ts, h.next, shifts[h.streamId], lasts[h.streamId])
      case Err(e) => Decoding(Err(e), None)
      case Ok(t) =>
        var written := Some(PtsWrite(h.streamId, t.value));
        match BodyAt(hdr, fc, h.flags, ts, t.next)
        case Err(e) => Decoding(Err(e), written)
        case Ok(d) => Decoding(Ok(Decoded(h.streamId, h.flags, t.value, d.sideData, d.metaData, d.data, d.next)), written)
  }

  // ---------------------------------------------------------------------
  // The decoder.

  /** Reads the value of a metadata entry once its tag is known (lines 49-74). */
  method ReadValue(input: Reader, tag: int) returns (r: Result<Value>)
    requires input.Valid()
    modifies input
    ensures input.Valid()
    ensures ValueAt(input.tokens, old(input.pos), tag) == if r.Ok? then Ok(Parsed(r.value, input.pos)) else Err(r.error)
  {
    if tag == -1 {
      var text := input.ReadBytes();
      if text.Err? {
        return Err(text.error);
      }
      r := Ok(Text(text.value));
    } else if tag == -2 {
      var key := input.ReadBytes();
      if key.Err? {
        return Err(key.error);
      }
      var val := input.ReadBytes();
      if val.Err? {
        return Err(val.error);
      }
      r := Ok(KeyValue(key.value, val.value));
    } else if tag == -3 {
      var n := input.ReadSigned();
      if n.Err? {
        return Err(n.error);
      }
      r := Ok(Int(n.value));
    } else if tag == -4 {
      var t := input.ReadUnsigned();
      if t.Err? {
        return Err(t.error);
      }
      r := Ok(RawTimestamp(t.value));
    } else if tag < -4 {
      var denominator := -tag - 4;
      var numerator := input.ReadSigned();
      if numerator.Err? {
        return Err(numerator.error);
      }
      r := Ok(Ratio(numerator.value, denominator));
    } else {
      r := Ok(Literal(tag));
    }
  }

  /** Reads one metadata entry: name, tag, value (lines 45-74). */
  method ReadEntry(input: Reader) returns (r: Result<Entry>)
    requires input.Valid()
    modifies input
    ensures input.Valid()
    ensures EntryAt(input.tokens, old(input.pos)) == if r.Ok? then Ok(Parsed(r.value, input.pos)) else Err(r.error)
  {
    var name := input.ReadBytes();
    if name.Err? {
      return Err(name.error);
    }
    var tag := input.ReadSigned();
    if tag.Err? {
      return Err(tag.error);
    }
    var value := ReadValue(input, tag.value);
    if value.Err? {
      return Err(value.error);
    }
    r := Ok(Entry(name.value, value.value));
  }

  /**
    Reads an index when `present` and checks it against `bound`, or takes
    `default` unchecked (the stream id, lines 104-112, and the elision
    header index, lines 140-146).
   */
  method ReadIndex(present: bool, default: nat, bound: nat, tooLarge: Error, input: Reader) returns (r: Result<nat>)
    requires input.Valid()
    modifies input
    ensures input.Valid()
    ensures IndexAt(present, default, bound, tooLarge, input.tokens, old(input.pos)) ==
      if r.Ok? then Ok(Parsed(r.value, input.pos)) else Err(r.error)
  {
    if present {
      var index := input.ReadUnsigned();
      if index.Err? {
        return Err(index.error);
      }
      if index.value >= bound {
        return Err(tooLarge);
      }
      r := Ok(index.value);
    } else {
      r := Ok(default);
    }
  }

  class Frame {
    var stream: Stream?
    var flags: bv64
    var pts: int
    var data: array?<byte>
    var sideData: Option<Meta>
    var metaData: Option<Meta>

    constructor ()
      ensures stream == null && data == null && sideData == None && metaData == None
    {
      stream := null;
      flags := 0;
      pts := 0;
      data := null;
      sideData := None;
      metaData := None;
    }

    /** Reads a metadata block into a map, a later entry replacing an earlier one of the same name. */
    method ReadMetaData(input: Reader) returns (r: Result<Meta>)
      requires input.Valid()
      modifies input
      ensures input.Valid()
      ensures MetaAt(input.tokens, old(input.pos)) == if r.Ok? then Ok(Parsed(r.value, input.pos)) else Err(r.error)
    {
      var count := input.ReadUnsigned();
      if count.Err? {
        return Err(count.error);
      }
      ghost var start := input.pos;
      ghost var entries: seq<Entry> := [];
      var meta: Meta := map[];
      var i: nat := 0;
      while i < count.value
        invariant input.Valid() && i <= count.value
        invariant EntriesAt(input.tokens, start, i) == Ok(Parsed(entries, input.pos))
        invariant meta == Collect(entries)
      {
        var entry := ReadEntry(input);
        if entry.Err? {
          EntriesFailFrom(input.tokens, start, i, count.value);
          return Err(entry.error);
        }
        meta := meta[entry.value.name := entry.value.value];
        assert (entries + [entry.value])[..|entries|] == entries;
        entries := entries + [entry.value];
        i := i + 1;
      }
      r := Ok(meta);
    }

    /** Lines 86-94: the table's flags, toggled by explicitly coded flags when the table says so. */
    method ReadFlags(fc: FrameCode, input: Reader) returns (r: Outcome)
      requires input.Valid()
      modifies this`flags, input
      ensures input.Valid()
      ensures FlagsAt(fc, input.tokens, old(input.pos)) == if r.Pass? then Ok(Parsed(flags, input.pos)) else Err(r.error)
    {
      flags := fc.flags;
      if Has(flags, FlagCoded) {
        var codedFlags := input.ReadUnsigned();
        if codedFlags.Err? {
          return Fail(codedFlags.error);
        }
        flags := flags ^ Low64(codedFlags.value);
      }
      r := Pass;
    }

    /** Lines 83-116: checks the code, sets the effective flags and selects the stream. */
    method ReadHead(hdr: Header, code: nat, streams: seq<Stream>, input: Reader) returns (r: Result<nat>)
      requires input.Valid() && code < |hdr.frameCodes|
      requires hdr.frameCodes[code].streamId < |streams|
      modifies this`flags, this`stream, input
      ensures input.Valid()
      ensures HeadAt(hdr, code, input.tokens, old(input.pos), |streams|) ==
        if r.Ok? then Ok(Head(flags, r.value, input.pos)) else Err(r.error)
      ensures r.Ok? ==> stream == streams[r.value]
    {
      if code == SyncCode {
        return Err(IllegalFrameCode);
      }
      var fc := hdr.frameCodes[code];
      if Has(fc.flags, FlagInvalid) {
        return Err(InvalidFrameCode);
      }
      var read := ReadFlags(fc, input);
      if read.Fail? {
        return Err(read.error);
      }
      var streamId := ReadIndex(Has(flags, FlagStreamId), fc.streamId, |streams|, IllegalStreamId, input);
      if streamId.Err? {
        return Err(streamId.error);
      }
      stream := streams[streamId.value];
      r := Ok(streamId.value);
    }

    /** Lines 119-131: sets the timestamp and writes it back to the stream. */
    method ReadPts(fc: FrameCode, input: Reader) returns (r: Outcome)
      requires input.Valid() && stream != null && stream.msbPtsShift < 31
      modifies this`pts, stream, input
      ensures input.Valid()
      ensures PtsAt(fc, flags, input.tokens, old(input.pos), stream.msbPtsShift, old(stream.lastPts)) ==
        if r.Pass? then Ok(Parsed(pts, input.pos)) else Err(r.error)
      ensures stream.lastPts == if r.Pass? then pts else old(stream.lastPts)
    {
      var shift := stream.msbPtsShift;
      if Has(flags, FlagCodedPts) {
        var codedPts := input.ReadUnsigned();
        if codedPts.Err? {
          return Fail(codedPts.error);
        }
        if codedPts.value < Pow2(shift) {
          var mask := Pow2(shift) - 1;
          var delta := stream.lastPts - mask / 2;
          pts := (codedPts.value - delta) % (mask + 1) + delta;
        } else {
          pts := codedPts.value - Pow2(shift);
        }
      } else {
        pts := stream.lastPts + fc.ptsDelta;
      }
      stream.lastPts := pts;
      r := Pass;
    }

    /** Lines 147-158: the reserved values and the checksum, read and dropped. */
    method ReadDropped(fc: FrameCode, input: Reader) returns (r: Outcome)
      requires input.Valid()
      modifies input
      ensures input.Valid()
      ensures DroppedAt(fc, flags, input.tokens, old(input.pos)) == if r.Pass? then Ok(input.pos) else Err(r.error)
    {
      var frameRes := fc.reservedCount;
      if Has(flags, FlagReserved) {
        var res := input.ReadUnsigned();
        if res.Err? {
          return Fail(res.error);
        }
        frameRes := res.value;
      }
      ghost var start := input.pos;
      assert ReservedAt(fc, flags, input.tokens, old(input.pos)) == Ok(Parsed(frameRes, start));
      var i := 0;
      while i < frameRes
        invariant input.Valid() && start <= |input.tokens|
        invariant 0 <= i && (frameRes >= 0 ==> i <= frameRes) && (frameRes < 0 ==> i == 0)
        invariant SkipUnsigned(input.tokens, start, i) == Ok(input.pos)
        decreases frameRes - i
      {
        var discarded := input.ReadUnsigned();
        if discarded.Err? {
          SkipFailsFrom(input.tokens, start, i, frameRes);
          return Fail(discarded.error);
        }
        i := i + 1;
      }
      assert SkipUnsigned(input.tokens, start, frameRes) == Ok(input.pos);
      if Has(flags, FlagChecksum) {
        var checksum := input.ReadFixed32();
        if checksum.Err? {
          return Fail(checksum.error);
        }
      }
      r := Pass;
    }

    /** Lines 133-162: the size, the dropped fields and the elision entry. */
    method ReadFields(hdr: Header, fc: FrameCode, input: Reader) returns (r: Result<Fields>)
      requires input.Valid() && fc.headerIdx < |hdr.elision|
      modifies input
      ensures input.Valid()
      ensures r == FieldsAt(hdr, fc, flags, input.tokens, old(input.pos))
      ensures r.Ok? ==> input.pos == r.value.next
    {
      ghost var ts, p := input.tokens, input.pos;
      var size := fc.dataSizeLsb;
      if Has(flags, FlagSizeMsb) {
        var msb := input.ReadUnsigned();
        if msb.Err? {
          return Err(msb.error);
        }
        size := size + fc.dataSizeMul * msb.value;
      }
      ghost var afterSize := input.pos;
      assert SizeAt(fc, flags, ts, p) == Ok(Parsed(size, afterSize));
      if Has(flags, FlagMatchTime) {
        var matchTimeDelta := input.ReadSigned();
        if matchTimeDelta.Err? {
          return Err(matchTimeDelta.error);
        }
      }
      assert MatchTimeAt(flags, ts, afterSize) == Ok(input.pos);
      var headerIdx := ReadIndex(Has(flags, FlagHeaderIdx), fc.headerIdx, |hdr.elision|, IllegalHeaderIndex, input);
      if headerIdx.Err? {
        return Err(headerIdx.error);
      }
      var dropped := ReadDropped(fc, input);
      if dropped.Fail? {
        return Err(dropped.error);
      }
      var index := headerIdx.value;
      if size > MaxElidedSize {
        index := 0;
      }
      r := Ok(Fields(size, index, input.pos));
    }

    /** Lines 165-179: the side and meta data blocks, and the number of bytes they take. */
    method ReadSideData(version: int, input: Reader) returns (r: Result<int>)
      requires input.Valid()
      modifies this`sideData, this`metaData, input
      ensures input.Valid()
      ensures SideDataAt(version, flags, input.tokens, old(input.pos)) ==
        if r.Ok? then Ok(SideData(sideData, metaData, input.pos)) else Err(r.error)
      ensures r.Ok? ==> r.value == Span(input.tokens, old(input.pos), input.pos)
    {
      if Has(flags, FlagSmData) {
        if version < SmDataVersion {
          return Err(SmDataNotAllowed);
        }
        ghost var p := input.pos;
        var pos := input.Offset();
        var side := ReadMetaData(input);
        if side.Err? {
          return Err(side.error);
        }
        sideData := Some(side.value);
        var meta := ReadMetaData(input);
        if meta.Err? {
          return Err(meta.error);
        }
        metaData := Some(meta.value);
        SpanSplit(input.tokens, 0, p, input.pos);
        r := Ok(input.Offset() - pos);
      } else {
        sideData := None;
        metaData := None;
        r := Ok(0);
      }
    }

    /** Lines 182-186: a fresh payload array, the elision prefix copied in and the rest read in place. */
    method ReadPayload(elision: seq<byte>, size: int, input: Reader) returns (r: Outcome)
      requires input.Valid()
      modifies this`data, input
      ensures input.Valid()
      ensures r.Pass? ==> data != null && fresh(data)
      ensures PayloadAt(elision, size, input.tokens, old(input.pos)) ==
        if r.Pass? then Ok(Parsed(data[..], input.pos)) else Err(r.error)
    {
      if size < |elision| {
        return Fail(PayloadTooSmall);
      }
      ghost var p := input.pos;
      data := new byte[size];
      forall k | 0 <= k < |elision| {
        data[k] := elision[k];
      }
      var ok := input.ReadFully(data, |elision|, size - |elision|);
      if !ok {
        return Fail(ReadFailure);
      }
      assert data[..] == elision + RawAt(input.tokens, p, size - |elision|).value.value by {
        assert data[..] == data[..|elision|] + data[|elision|..size];
      }
      r := Pass;
    }

    /** Lines 165-186: side and meta data, whose bytes count against the size, then the payload. */
    method ReadData(hdr: Header, fields: Fields, input: Reader) returns (r: Outcome)
      requires input.Valid() && fields.headerIdx < |hdr.elision|
      modifies this`sideData, this`metaData, this`data, input
      ensures input.Valid()
      ensures r.Pass? ==> data != null && fresh(data)
      ensures DataAt(hdr, flags, fields, input.tokens, old(input.pos)) ==
        if r.Pass? then Ok(Payload(sideData, metaData, data[..], input.pos)) else Err(r.error)
    {
      ghost var ts, p := input.tokens, input.pos;
      var consumed := ReadSideData(hdr.version, input);
      if consumed.Err? {
        return Fail(consumed.error);
      }
      ghost var payload := PayloadAt(hdr.elision[fields.headerIdx], fields.size - consumed.value, ts, input.pos);
      assert DataAt(hdr, flags, fields, ts, p) ==
        if payload.Err? then Err(payload.error) else Ok(Payload(sideData, metaData, payload.value.value, payload.value.next));
      r := ReadPayload(hdr.elision[fields.headerIdx], fields.size - consumed.value, input);
    }

    /** Lines 133-186: the fields after the timestamp, then the data. */
    method ReadBody(hdr: Header, fc: FrameCode, input: Reader) returns (r: Outcome)
      requires input.Valid() && fc.headerIdx < |hdr.elision|
      modifies this`sideData, this`metaData, this`data, input
      ensures input.Valid()
      ensures r.Pass? ==> data != null && fresh(data)
      ensures BodyAt(hdr, fc, flags, input.tokens, old(input.pos)) ==
        if r.Pass? then Ok(Payload(sideData, metaData, data[..], input.pos)) else Err(r.error)
    {
      var fields := ReadFields(hdr, fc, input);
      if fields.Err? {
        return Fail(fields.error);
      }
      r := ReadData(hdr, fields.value, input);
    }

    /**
      Decodes the frame with code `code` (lines 82-189). The selected
      stream's last timestamp is updated as soon as the timestamp is known,
      so a later failure leaves it updated; no other stream changes.
     */
    method Read(hdr: Header, streams: seq<Stream>, input: Reader, code: nat) returns (r: Outcome)
      requires input.Valid() && code < |hdr.frameCodes|
      requires hdr.frameCodes[code].streamId < |streams|
      requires hdr.frameCodes[code].headerIdx < |hdr.elision|
      requires forall i | 0 <= i < |streams| :: streams[i].msbPtsShift < 31
      modifies this, input, streams
      ensures input.Valid()
      ensures var d := Decode(hdr, code, input.tokens, old(input.pos), Shifts(streams), old(LastPts(streams)));
        (r.Pass? <==> d.outcome.Ok?) && (r.Fail? ==> r.error == d.outcome.error)
      ensures var d := Decode(hdr, code, input.tokens, old(input.pos), Shifts(streams), old(LastPts(streams)));
        forall i | 0 <= i < |streams| ::
          streams[i].lastPts ==
            if d.written.Some? && streams[i] == streams[d.written.value.stream] then d.written.value.pts
            else old(streams[i].lastPts)
      ensures var d := Decode(hdr, code, input.tokens, old(input.pos), Shifts(streams), old(LastPts(streams)));
        r.Pass? ==>
          stream == streams[d.outcome.value.streamId] && flags == d.outcome.value.flags &&
          pts == d.outcome.value.pts && sideData == d.outcome.value.sideData &&
          metaData == d.outcome.value.metaData && data != null && fresh(data) &&
          data[..] == d.outcome.value.data && input.pos == d.outcome.value.next
    {
      ghost var ts, p, shifts, lasts := input.tokens, input.pos, Shifts(streams), LastPts(streams);
      var head := ReadHead(hdr, code, streams, input);
      if head.Err? {
        return Fail(head.error);
      }
      ghost var afterHead := input.pos;
      assert HeadAt(hdr, code, ts, p, |lasts|) == Ok(Head(flags, head.value, afterHead));
      var fc := hdr.frameCodes[code];
      var timestamp := ReadPts(fc, input);
      if timestamp.Fail? {
        return timestamp;
      }
      assert PtsAt(fc, flags, ts, afterHead, shifts[head.value], lasts[head.value]) == Ok(Parsed(pts, input.pos));
      r := ReadBody(hdr, fc, input);
    }
  }

  /** Once the `i + 1`-th dropped value fails to read, dropping any more values fails too. */
  lemma {:induction false} SkipFailsFrom(ts: seq<Token>, p: nat, i: nat, n: int)
    requires p <= |ts| && i < n
    requires SkipUnsigned(ts, p, i).Ok? && UnsignedAt(ts, SkipUnsigned(ts, p, i).value).Err?
    ensures SkipUnsigned(ts, p, n).Err?
    decreases n
  {
    if i + 1 < n {
      SkipFailsFrom(ts, p, i, n - 1);
    }
  }
}
