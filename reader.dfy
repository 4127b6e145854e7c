/**
  The primitive reader of a NUT stream, seen as a cursor over tokens that
  are already decoded from bytes. Each token records one primitive read
  (an unsigned or signed variable-length integer, a length-prefixed byte
  string, a fixed 32-bit integer, or one raw payload byte) and knows how
  many bytes its encoding takes, so that the reader's byte offset is the
  sum of the widths of the tokens consumed.
 */
module NutStream {
  import opened Results

  newtype byte = x: int | 0 <= x < 256

  datatype Token =
    | Unsigned(u: nat)           // readVarLong / readVarInt
    | Signed(s: int)             // readSignedVarInt
    | Bytes(bytes: seq<byte>)    // readVarArray
    | Fixed32(word: nat)         // readInt
    | Raw(b: byte)               // one byte of readFully

  /** Bytes taken by a variable-length unsigned integer: seven bits per byte. */
  function VarLen(n: nat): (w: nat)
    ensures w >= 1
    ensures n < 128 <==> w == 1
  {
    if n < 128 then 1 else 1 + VarLen(n / 128)
  }

  /** The unsigned code of a signed integer: 1, -1, 2, -2, ... become 1, 2, 3, 4, ... */
  function SignedCode(s: int): nat
  {
    if s > 0 then 2 * s - 1 else -2 * s
  }

  /** The encoded byte width of one token, in the shortest encoding of its value. */
  function Width(t: Token): (w: nat)
    ensures w >= 1
  {
    match t
    case Unsigned(u) => VarLen(u)
    case Signed(s) => VarLen(SignedCode(s))
    case Bytes(bs) => VarLen(|bs|) + |bs|
    case Fixed32(_) => 4
    case Raw(_) => 1
  }

  /** The encoded byte width of the tokens `ts[p..q]`. */
  function Span(ts: seq<Token>, p: nat, q: nat): nat
    requires p <= q <= |ts|
    decreases q
  {
    if q == p then 0 else Span(ts, p, q - 1) + Width(ts[q - 1])
  }

  /** Span is additive: the bytes from p to q are those from p to m and then those from m to q. */
  lemma {:induction false} SpanSplit(ts: seq<Token>, p: nat, m: nat, q: nat)
    requires p <= m <= q <= |ts|
    ensures Span(ts, p, q) == Span(ts, p, m) + Span(ts, m, q)
    decreases q
  {
    if q > m {
      SpanSplit(ts, p, m, q - 1);
    }
  }

  // Specifications of the primitive reads at a position.

  function UnsignedAt(ts: seq<Token>, p: nat): (r: Result<Parsed<nat>>)
    ensures r.Ok? <==> p < |ts| && ts[p].Unsigned?
    ensures r.Ok? ==> r.value == Parsed(ts[p].u, p + 1)
  {
    if p < |ts| && ts[p].Unsigned? then Ok(Parsed(ts[p].u, p + 1)) else Err(ReadFailure)
  }

  function SignedAt(ts: seq<Token>, p: nat): (r: Result<Parsed<int>>)
    ensures r.Ok? <==> p < |ts| && ts[p].Signed?
    ensures r.Ok? ==> r.value == Parsed(ts[p].s, p + 1)
  {
    if p < |ts| && ts[p].Signed? then Ok(Parsed(ts[p].s, p + 1)) else Err(ReadFailure)
  }

  function BytesAt(ts: seq<Token>, p: nat): (r: Result<Parsed<seq<byte>>>)
    ensures r.Ok? <==> p < |ts| && ts[p].Bytes?
    ensures r.Ok? ==> r.value == Parsed(ts[p].bytes, p + 1)
  {
    if p < |ts| && ts[p].Bytes? then Ok(Parsed(ts[p].bytes, p + 1)) else Err(ReadFailure)
  }

  function Fixed32At(ts: seq<Token>, p: nat): (r: Result<Parsed<nat>>)
    ensures r.Ok? <==> p < |ts| && ts[p].Fixed32?
    ensures r.Ok? ==> r.value == Parsed(ts[p].word, p + 1)
  {
    if p < |ts| && ts[p].Fixed32? then Ok(Parsed(ts[p].word, p + 1)) else Err(ReadFailure)
  }

  /** `n` raw bytes starting at `p`: the input must hold exactly that many raw tokens there. */
  function RawAt(ts: seq<Token>, p: nat, n: nat): (r: Result<Parsed<seq<byte>>>)
    ensures r.Ok? <==> p + n <= |ts| && forall j | p <= j < p + n :: ts[j].Raw?
    ensures r.Ok? ==> r.value.next == p + n && |r.value.value| == n
    ensures r.Ok? ==> forall k | 0 <= k < n :: r.value.value[k] == ts[p + k].b
  {
    if p + n <= |ts| && forall j | p <= j < p + n :: ts[j].Raw? then
      Ok(Parsed(seq(n, k requires 0 <= k < n => ts[p + k].b), p + n))
    else
      Err(ReadFailure)
  }

  /** The input stream: a fixed token sequence and the position of the next token. */
  class Reader {
    const tokens: seq<Token>
    var pos: nat

    ghost predicate Valid()
      reads this
    {
      pos <= |tokens|
    }

    constructor (tokens: seq<Token>)
      ensures Valid() && this.tokens == tokens && pos == 0
    {
      this.tokens := tokens;
      pos := 0;
    }

    /** The byte offset of the next token (`offset()`). */
    function Offset(): nat
      reads this
      requires Valid()
    {
      Span(tokens, 0, pos)
    }

    method ReadUnsigned() returns (r: Result<nat>)
      requires Valid()
      modifies this
      ensures Valid()
      ensures UnsignedAt(tokens, old(pos)).Ok? <==> r.Ok?
      ensures r.Ok? ==> UnsignedAt(tokens, old(pos)).value == Parsed(r.value, pos)
      ensures r.Err? ==> r.error == ReadFailure && pos == old(pos)
    {
      if pos < |tokens| && tokens[pos].Unsigned? {
        r := Ok(tokens[pos].u);
        pos := pos + 1;
      } else {
        r := Err(ReadFailure);
      }
    }

    method ReadSigned() returns (r: Result<int>)
      requires Valid()
      modifies this
      ensures Valid()
      ensures SignedAt(tokens, old(pos)).Ok? <==> r.Ok?
      ensures r.Ok? ==> SignedAt(tokens, old(pos)).value == Parsed(r.value, pos)
      ensures r.Err? ==> r.error == ReadFailure && pos == old(pos)
    {
      if pos < |tokens| && tokens[pos].Signed? {
        r := Ok(tokens[pos].s);
        pos := pos + 1;
      } else {
        r := Err(ReadFailure);
      }
    }

    method ReadBytes() returns (r: Result<seq<byte>>)
      requires Valid()
      modifies this
      ensures Valid()
      ensures BytesAt(tokens, old(pos)).Ok? <==> r.Ok?
      ensures r.Ok? ==> BytesAt(tokens, old(pos)).value == Parsed(r.value, pos)
      ensures r.Err? ==> r.error == ReadFailure && pos == old(pos)
    {
      if pos < |tokens| && tokens[pos].Bytes? {
        r := Ok(tokens[pos].bytes);
        pos := pos + 1;
      } else {
        r := Err(ReadFailure);
      }
    }

    method ReadFixed32() returns (r: Result<nat>)
      requires Valid()
      modifies this
      ensures Valid()
      ensures Fixed32At(tokens, old(pos)).Ok? <==> r.Ok?
      ensures r.Ok? ==> Fixed32At(tokens, old(pos)).value == Parsed(r.value, pos)
      ensures r.Err? ==> r.error == ReadFailure && pos == old(pos)
    {
      if pos < |tokens| && tokens[pos].Fixed32? {
        r := Ok(tokens[pos].word);
        pos := pos + 1;
      } else {
        r := Err(ReadFailure);
      }
    }

    /** Reads `len` raw bytes into `a[off..off + len]` (`readFully`), leaving the rest of `a` alone. */
    method ReadFully(a: array<byte>, off: nat, len: nat) returns (ok: bool)
      requires Valid()
      requires off + len <= a.Length
      modifies this, a
      ensures Valid()
      ensures ok <==> RawAt(tokens, old(pos), len).Ok?
      ensures ok ==> pos == old(pos) + len && a[off..off + len] == RawAt(tokens, old(pos), len).value.value
      ensures a[..off] == old(a[..off]) && a[off + len..] == old(a[off + len..])
    {
      var i := 0;
      ghost var start := pos;
      while i < len
        invariant 0 <= i <= len
        invariant start == old(pos) && pos == start + i <= |tokens|
        invariant forall j | start <= j < pos :: tokens[j].Raw?
        invariant forall k | off <= k < off + i :: a[k] == tokens[start + k - off].b
        invariant a[..off] == old(a[..off]) && a[off + len..] == old(a[off + len..])
      {
        if pos == |tokens| || !tokens[pos].Raw? {
          return false;
        }
        a[off + i] := tokens[pos].b;
        pos := pos + 1;
        i := i + 1;
      }
      ok := true;
      assert a[off..off + len] == RawAt(tokens, old(pos), len).value.value;
    }
  }
}
