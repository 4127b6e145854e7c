/**
  The embedded metadata block of a NUT frame: a count, then that many
  entries, each a name, a signed type tag and a value chosen by the tag.
  This module gives the decoding as functions over the token sequence, an
  entry encoder that is its inverse, and the map the entries produce when
  later entries overwrite earlier ones of the same name.
 */
module MetaData {
  import opened Results
  import opened NutStream

  datatype Value =
    | Text(text: seq<byte>)                       // tag -1
    | KeyValue(key: seq<byte>, val: seq<byte>)    // tag -2
    | Int(i: int)                                 // tag -3
    | RawTimestamp(t: nat)                        // tag -4, kept undecoded
    | Ratio(numerator: int, denominator: nat)     // tag < -4
    | Literal(tag: nat)                           // tag >= 0, the tag itself

  datatype Entry = Entry(name: seq<byte>, value: Value)

  type Meta = map<seq<byte>, Value>

  /** The tag-dependent part of an entry, read at `p` once the tag is known. */
  function ValueAt(ts: seq<Token>, p: nat, tag: int): (r: Result<Parsed<Value>>)
    ensures r.Ok? && p <= |ts| ==> p <= r.value.next <= |ts|
    ensures r.Err? ==> r.error == ReadFailure
  {
    if tag == -1 then
      var t :- BytesAt(ts, p);
      Ok(Parsed(Text(t.value), t.next))
    else if tag == -2 then
      var k :- BytesAt(ts, p);
      var v :- BytesAt(ts, k.next);
      Ok(Parsed(KeyValue(k.value, v.value), v.next))
    else if tag == -3 then
      var n :- SignedAt(ts, p);
      Ok(Parsed(Int(n.value), n.next))
    else if tag == -4 then
      var u :- UnsignedAt(ts, p);
      Ok(Parsed(RawTimestamp(u.value), u.next))
    else if tag < -4 then
      var n :- SignedAt(ts, p);
      Ok(Parsed(Ratio(n.value, -tag - 4), n.next))
    else
      Ok(Parsed(Literal(tag), p))
  }

  /** One entry: name, tag, value. */
  function EntryAt(ts: seq<Token>, p: nat): (r: Result<Parsed<Entry>>)
    ensures r.Ok? ==> p < r.value.next <= |ts|
    ensures r.Err? ==> r.error == ReadFailure
  {
    var name :- BytesAt(ts, p);
    var tag :- SignedAt(ts, name.next);
    var v :- ValueAt(ts, tag.next, tag.value);
    Ok(Parsed(Entry(name.value, v.value), v.next))
  }

  /** The first `n` entries starting at `p`, in input order. */
  function EntriesAt(ts: seq<Token>, p: nat, n: nat): (r: Result<Parsed<seq<Entry>>>)
    ensures r.Ok? ==> |r.value.value| == n && p <= r.value.next
    ensures r.Ok? && n > 0 ==> r.value.next <= |ts|
    ensures r.Err? ==> r.error == ReadFailure
  {
    if n == 0 then
      Ok(Parsed([], p))
    else
      match EntriesAt(ts, p, n - 1)
      case Err(err) => Err(err)
      case Ok(es) =>
        match EntryAt(ts, es.next)
        case Err(err) => Err(err)
        case Ok(e) => Ok(Parsed(es.value + [e.value], e.next))
  }

  /** The map built by putting the entries in order: a later entry replaces an earlier one of the same name. */
  function Collect(es: seq<Entry>): Meta
  {
    if es == [] then map[] else Collect(es[..|es| - 1])[es[|es| - 1].name := es[|es| - 1].value]
  }

  /** A whole metadata block: the entry count, then the entries. */
  function MetaAt(ts: seq<Token>, p: nat): (r: Result<Parsed<Meta>>)
    ensures r.Ok? ==> p < r.value.next <= |ts|
    ensures r.Err? ==> r.error == ReadFailure
  {
    var count :- UnsignedAt(ts, p);
    var es :- EntriesAt(ts, count.next, count.value);
    Ok(Parsed(Collect(es.value), es.next))
  }

  // The encoding side, used to state what the decoder accepts.

  /** Values the wire format can express: a ratio's denominator is at least 1. */
  predicate WellFormed(v: Value)
  {
    v.Ratio? ==> v.denominator >= 1
  }

  function TagOf(v: Value): int
  {
    match v
    case Text(_) => -1
    case KeyValue(_, _) => -2
    case Int(_) => -3
    case RawTimestamp(_) => -4
    case Ratio(_, d) => -(d as int) - 4
    case Literal(t) => t
  }

  function EncodeValue(v: Value): seq<Token>
  {
    match v
    case Text(t) => [Bytes(t)]
    case KeyValue(k, x) => [Bytes(k), Bytes(x)]
    case Int(i) => [Signed(i)]
    case RawTimestamp(t) => [Unsigned(t)]
    case Ratio(n, _) => [Signed(n)]
    case Literal(_) => []
  }

  function EncodeEntry(e: Entry): seq<Token>
  {
    [Bytes(e.name), Signed(TagOf(e.value))] + EncodeValue(e.value)
  }

  /** `ts` holds `enc` at position `p`. */
  predicate HoldsAt(ts: seq<Token>, p: nat, enc: seq<Token>)
    decreases |enc|
  {
    if enc == [] then p <= |ts| else p < |ts| && ts[p] == enc[0] && HoldsAt(ts, p + 1, enc[1..])
  }

  lemma {:induction false} HoldsAtIndex(ts: seq<Token>, p: nat, enc: seq<Token>)
    ensures HoldsAt(ts, p, enc) <==> p + |enc| <= |ts| && forall k | 0 <= k < |enc| :: ts[p + k] == enc[k]
    decreases |enc|
  {
    if enc != [] {
      HoldsAtIndex(ts, p + 1, enc[1..]);
      if p + |enc| <= |ts| && forall k | 0 <= k < |enc| :: ts[p + k] == enc[k] {
        assert ts[p + 0] == enc[0];
        forall k | 0 <= k < |enc| - 1 ensures ts[p + 1 + k] == enc[1..][k] {
          assert ts[p + (k + 1)] == enc[k + 1];
        }
      }
    }
  }

  lemma {:induction false} HoldsAtSplit(ts: seq<Token>, p: nat, a: seq<Token>, b: seq<Token>)
    requires HoldsAt(ts, p, a + b)
    ensures HoldsAt(ts, p, a) && HoldsAt(ts, p + |a|, b)
    decreases |a|
  {
    if a == [] {
      assert a + b == b;
      HoldsAtIndex(ts, p, b);
    } else {
      assert (a + b)[1..] == a[1..] + b;
      HoldsAtSplit(ts, p + 1, a[1..], b);
    }
  }

  /** Decoding an encoded value under its own tag gives the value back. */
  lemma ValueRoundTrip(ts: seq<Token>, q: nat, v: Value)
    requires WellFormed(v)
    requires HoldsAt(ts, q, EncodeValue(v))
    ensures ValueAt(ts, q, TagOf(v)) == Ok(Parsed(v, q + |EncodeValue(v)|))
  {
    var enc := EncodeValue(v);
    HoldsAtIndex(ts, q, enc);
    match v
    case Text(_) =>
      assert ts[q + 0] == enc[0];
    case KeyValue(_, _) =>
      assert ts[q + 0] == enc[0] && ts[q + 1] == enc[1];
    case Int(_) =>
      assert ts[q + 0] == enc[0];
    case RawTimestamp(_) =>
      assert ts[q + 0] == enc[0];
    case Ratio(_, _) =>
      assert ts[q + 0] == enc[0];
    case Literal(_) =>
  }

  /** Decoding an encoded entry gives the entry back and stops right after it. */
  lemma EntryRoundTrip(ts: seq<Token>, p: nat, e: Entry)
    requires WellFormed(e.value)
    requires HoldsAt(ts, p, EncodeEntry(e))
    ensures EntryAt(ts, p) == Ok(Parsed(e, p + |EncodeEntry(e)|))
  {
    var head := [Bytes(e.name), Signed(TagOf(e.value))];
    HoldsAtSplit(ts, p, head, EncodeValue(e.value));
    HoldsAtIndex(ts, p, head);
    assert ts[p + 0] == head[0] && ts[p + 1] == head[1];
    ValueRoundTrip(ts, p + 2, e.value);
  }

  /** Conversely, whatever decodes as an entry is that entry's encoding. */
  lemma EntryCanonical(ts: seq<Token>, p: nat)
    requires EntryAt(ts, p).Ok?
    ensures WellFormed(EntryAt(ts, p).value.value.value)
    ensures HoldsAt(ts, p, EncodeEntry(EntryAt(ts, p).value.value))
    ensures EntryAt(ts, p).value.next == p + |EncodeEntry(EntryAt(ts, p).value.value)|
  {
    var r := EntryAt(ts, p).value;
    var enc := EncodeEntry(r.value);
    assert ts[p..r.next] == enc;
    HoldsAtIndex(ts, p, enc);
    forall k | 0 <= k < |enc| ensures ts[p + k] == enc[k] {
      assert ts[p..r.next][k] == enc[k];
    }
  }

  /** A run of entries is the run before its last entry, then that entry. */
  lemma EntriesExtend(ts: seq<Token>, p: nat, es: seq<Entry>, q: nat, r: nat)
    requires es != []
    requires EntriesAt(ts, p, |es| - 1) == Ok(Parsed(es[..|es| - 1], q))
    requires EntryAt(ts, q) == Ok(Parsed(es[|es| - 1], r))
    ensures EntriesAt(ts, p, |es|) == Ok(Parsed(es, r))
  {
    assert es[..|es| - 1] + [es[|es| - 1]] == es;
  }

  /**
    The entries are encoded back to back: entry `i` is encoded from
    `starts[i]` up to `starts[i + 1]`.
   */
  predicate EncodedRun(ts: seq<Token>, es: seq<Entry>, starts: seq<nat>)
  {
    |starts| == |es| + 1 &&
    forall i {:trigger es[i]} | 0 <= i < |es| ::
      WellFormed(es[i].value) && HoldsAt(ts, starts[i], EncodeEntry(es[i])) &&
      starts[i + 1] == starts[i] + |EncodeEntry(es[i])|
  }

  /** Entries encoded back to back are decoded as a run. */
  lemma {:induction false} EntriesFromRun(ts: seq<Token>, es: seq<Entry>, starts: seq<nat>, p: nat, end: nat)
    requires EncodedRun(ts, es, starts) && starts[0] == p && starts[|es|] == end
    ensures EntriesAt(ts, p, |es|) == Ok(Parsed(es, end))
  {
    if es != [] {
      var n := |es| - 1;
      assert EncodedRun(ts, es[..n], starts[..n + 1]);
      EntriesFromRun(ts, es[..n], starts[..n + 1], p, starts[n]);
      EntryRoundTrip(ts, starts[n], es[n]);
      EntriesExtend(ts, starts[0], es, starts[n], starts[n + 1]);
    }
  }

  /** A run of encoded entries followed by one more encoded entry is a longer run. */
  lemma RunExtend(ts: seq<Token>, es: seq<Entry>, starts: seq<nat>, e: Entry, q: nat)
    requires EncodedRun(ts, es, starts)
    requires WellFormed(e.value) && HoldsAt(ts, starts[|es|], EncodeEntry(e))
    requires q == starts[|es|] + |EncodeEntry(e)|
    ensures EncodedRun(ts, es + [e], starts + [q])
  {
    var es', starts' := es + [e], starts + [q];
    forall i | 0 <= i < |es'|
      ensures WellFormed(es'[i].value) && HoldsAt(ts, starts'[i], EncodeEntry(es'[i]))
      ensures starts'[i + 1] == starts'[i] + |EncodeEntry(es'[i])|
    {
      if i < |es| {
        assert es'[i] == es[i] && starts'[i] == starts[i] && starts'[i + 1] == starts[i + 1];
      }
    }
  }

  /** A successful run of `n` entries is the run of the first `n - 1`, then one more entry. */
  lemma EntriesSnoc(ts: seq<Token>, p: nat, n: nat)
    requires n > 0 && EntriesAt(ts, p, n).Ok?
    ensures EntriesAt(ts, p, n - 1).Ok? && EntryAt(ts, EntriesAt(ts, p, n - 1).value.next).Ok?
    ensures EntriesAt(ts, p, n).value ==
      Parsed(EntriesAt(ts, p, n - 1).value.value + [EntryAt(ts, EntriesAt(ts, p, n - 1).value.next).value.value],
             EntryAt(ts, EntriesAt(ts, p, n - 1).value.next).value.next)
  {
  }

  /** Conversely, every run of entries that decodes is laid out as a run of encoded entries. */
  lemma {:induction false} EntriesCanonical(ts: seq<Token>, p: nat, n: nat) returns (starts: seq<nat>)
    requires EntriesAt(ts, p, n).Ok?
    ensures EncodedRun(ts, EntriesAt(ts, p, n).value.value, starts)
    ensures starts[0] == p && starts[n] == EntriesAt(ts, p, n).value.next
    decreases n
  {
    if n == 0 {
      starts := [p];
    } else {
      EntriesSnoc(ts, p, n);
      var prev := EntriesAt(ts, p, n - 1).value;
      var last := EntryAt(ts, prev.next).value;
      var before := EntriesCanonical(ts, p, n - 1);
      EntryCanonical(ts, prev.next);
      RunExtend(ts, prev.value, before, last.value, last.next);
      starts := before + [last.next];
    }
  }

  /** A block is its count followed by that many entries. */
  lemma MetaFromEntries(ts: seq<Token>, p: nat, es: seq<Entry>, end: nat)
    requires UnsignedAt(ts, p) == Ok(Parsed(|es|, p + 1))
    requires EntriesAt(ts, p + 1, |es|) == Ok(Parsed(es, end))
    ensures MetaAt(ts, p) == Ok(Parsed(Collect(es), end))
  {
  }

  /**
    Decoding a block whose count is followed by that many entries encoded
    back to back gives the map of those entries, later names winning, and
    stops where the last entry ends.
   */
  lemma MetaRoundTrip(ts: seq<Token>, p: nat, es: seq<Entry>, starts: seq<nat>)
    requires p < |ts| && ts[p] == Unsigned(|es|)
    requires EncodedRun(ts, es, starts) && starts[0] == p + 1
    ensures MetaAt(ts, p) == Ok(Parsed(Collect(es), starts[|es|]))
  {
    EntriesFromRun(ts, es, starts, p + 1, starts[|es|]);
    MetaFromEntries(ts, p, es, starts[|es|]);
  }

  /** Once the entry after the first `i` fails, every longer run of entries fails too. */
  lemma {:induction false} EntriesFailFrom(ts: seq<Token>, p: nat, i: nat, n: nat)
    requires i < n
    requires EntriesAt(ts, p, i + 1).Err?
    ensures EntriesAt(ts, p, n).Err?
    decreases n
  {
    if i + 1 < n {
      EntriesFailFrom(ts, p, i, n - 1);
    }
  }

  /**
    Last write wins: a name is in the map exactly when some entry has it, and
    its value is that of the last entry with the name.
   */
  lemma {:induction false} CollectLastWins(es: seq<Entry>, name: seq<byte>)
    ensures name in Collect(es) <==> exists j | 0 <= j < |es| :: es[j].name == name
    ensures forall j | 0 <= j < |es| && es[j].name == name && (forall k | j < k < |es| :: es[k].name != name) ::
      name in Collect(es) && Collect(es)[name] == es[j].value
  {
    if es != [] {
      var init := es[..|es| - 1];
      CollectLastWins(init, name);
      forall j | 0 <= j < |init| && init[j].name == name
        ensures es[j].name == name
      {
      }
      if name != es[|es| - 1].name {
        assert forall j | 0 <= j < |es| && es[j].name == name :: j < |init| && init[j] == es[j];
      }
    }
  }

  /** The value read for each kind of tag. */
  lemma ValueByTag(ts: seq<Token>, p: nat, tag: int)
    requires ValueAt(ts, p, tag).Ok?
    ensures tag == -3 ==> ValueAt(ts, p, tag).value.value == Int(ts[p].s)
    ensures tag == -4 ==> ValueAt(ts, p, tag).value.value == RawTimestamp(ts[p].u)
    ensures tag < -4 ==> ValueAt(ts, p, tag).value.value == Ratio(ts[p].s, -tag - 4) && -tag - 4 >= 1
    ensures tag >= 0 ==> ValueAt(ts, p, tag).value == Parsed(Literal(tag), p)
  {
  }

  /** A tag of -6 followed by numerator 3 gives the ratio 3/2. */
  lemma RatioExample(name: seq<byte>)
    ensures EntryAt([Bytes(name), Signed(-6), Signed(3)], 0) == Ok(Parsed(Entry(name, Ratio(3, 2)), 3))
  {
  }
}
