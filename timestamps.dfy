/**
  Reconstruction of a frame's presentation timestamp from its coded value.
  A coded value below 2^S (S is the stream's msb_pts_shift) carries only the
  low S bits of the timestamp; the decoder picks, among all integers with
  those low bits, the one in a window of width 2^S around the stream's last
  timestamp. A coded value of at least 2^S is the full timestamp offset by 2^S.
 */
module Timestamps {

  function Pow2(n: nat): (r: nat)
    ensures r >= 1
  {
    if n == 0 then 1 else 2 * Pow2(n - 1)
  }

  /** Low end of the reconstruction window: `last - mask / 2` with `mask = 2^shift - 1`. */
  function WindowStart(shift: nat, last: int): int
  {
    last - (Pow2(shift) - 1) / 2
  }

  /**
    The truncated case: `((coded - delta) & mask) + delta`. For a mask of the
    form 2^S - 1, two's-complement `& mask` is the non-negative remainder
    modulo 2^S, which is Dafny's `%`.
   */
  function Unwrap(coded: nat, shift: nat, last: int): int
    requires coded < Pow2(shift)
  {
    var delta := WindowStart(shift, last);
    (coded - delta) % Pow2(shift) + delta
  }

  /** The timestamp a coded value stands for, given the stream's last timestamp. */
  function CodedPts(coded: nat, shift: nat, last: int): int
  {
    if coded < Pow2(shift) then Unwrap(coded, shift, last) else coded - Pow2(shift)
  }

  /** A non-zero multiple of m is at least m away from zero. */
  lemma {:induction false} MultipleFarFromZero(k: int, m: int)
    requires m >= 1 && k != 0
    ensures k * m >= m || k * m <= -m
    decreases if k < 0 then -k else k
  {
    if k > 1 {
      MultipleFarFromZero(k - 1, m);
      assert k * m == (k - 1) * m + m;
    } else if k < -1 {
      MultipleFarFromZero(k + 1, m);
      assert k * m == (k + 1) * m - m;
    }
  }

  /** Euclidean division is unique: a quotient and an in-range remainder determine `%`. */
  lemma ModUnique(a: int, m: int, q: int, r: int)
    requires m >= 1 && 0 <= r < m && a == q * m + r
    ensures a % m == r
  {
    assert a == (a / m) * m + a % m;
    var k := q - a / m;
    assert k * m == a % m - r by {
      assert q * m - (a / m) * m == k * m;
    }
    if k != 0 {
      MultipleFarFromZero(k, m);
    }
  }

  /** Two integers with the same remainder modulo m differ by a multiple of m. */
  lemma SameRemainder(x: int, y: int, m: int)
    requires m >= 1 && x % m == y % m
    ensures x - y == (x / m - y / m) * m
  {
    assert x == (x / m) * m + x % m;
    assert y == (y / m) * m + y % m;
    assert (x / m) * m - (y / m) * m == (x / m - y / m) * m;
  }

  /** The reconstructed timestamp has the coded value as its low `shift` bits. */
  lemma UnwrapCongruent(coded: nat, shift: nat, last: int)
    requires coded < Pow2(shift)
    ensures Unwrap(coded, shift, last) % Pow2(shift) == coded
  {
    var m := Pow2(shift);
    var delta := WindowStart(shift, last);
    var x := coded - delta;
    assert x == (x / m) * m + x % m;
    assert Unwrap(coded, shift, last) == (-(x / m)) * m + coded;
    ModUnique(Unwrap(coded, shift, last), m, -(x / m), coded);
  }

  /** The reconstructed timestamp lies in the window [last - mask/2, last - mask/2 + mask]. */
  lemma UnwrapInWindow(coded: nat, shift: nat, last: int)
    requires coded < Pow2(shift)
    ensures WindowStart(shift, last) <= Unwrap(coded, shift, last) <= WindowStart(shift, last) + Pow2(shift) - 1
  {
  }

  /**
    The window characterises the result: an integer with the coded low bits
    that lies in the window is the reconstructed timestamp, and nothing else is.
   */
  lemma UnwrapUnique(coded: nat, shift: nat, last: int, x: int)
    requires coded < Pow2(shift)
    ensures (x % Pow2(shift) == coded && WindowStart(shift, last) <= x <= WindowStart(shift, last) + Pow2(shift) - 1)
        <==> x == Unwrap(coded, shift, last)
  {
    var m := Pow2(shift);
    var pts := Unwrap(coded, shift, last);
    UnwrapCongruent(coded, shift, last);
    UnwrapInWindow(coded, shift, last);
    if x % m == coded && WindowStart(shift, last) <= x <= WindowStart(shift, last) + m - 1 {
      SameRemainder(x, pts, m);
      if x / m - pts / m != 0 {
        MultipleFarFromZero(x / m - pts / m, m);
      }
    }
  }

  /**
    Nearest representative: no integer with the same low bits is closer to
    the last timestamp than the reconstructed one.
   */
  lemma UnwrapNearest(coded: nat, shift: nat, last: int, x: int)
    requires coded < Pow2(shift)
    requires x % Pow2(shift) == coded
    ensures Distance(x, last) >= Distance(Unwrap(coded, shift, last), last)
  {
    var m := Pow2(shift);
    var pts := Unwrap(coded, shift, last);
    UnwrapCongruent(coded, shift, last);
    UnwrapInWindow(coded, shift, last);
    SameRemainder(x, pts, m);
    if x / m - pts / m != 0 {
      MultipleFarFromZero(x / m - pts / m, m);
    }
  }

  function Distance(a: int, b: int): nat
  {
    if a >= b then a - b else b - a
  }

  /** A full coded value ignores the last timestamp. */
  lemma FullPtsIgnoresLast(coded: nat, shift: nat, last1: int, last2: int)
    requires coded >= Pow2(shift)
    ensures CodedPts(coded, shift, last1) == CodedPts(coded, shift, last2) == coded - Pow2(shift)
  {
  }

  /**
    With shift 8 and last timestamp 1000 the window is [873, 1128]: coded
    value 130 decodes to 898 (= 3 * 256 + 130), and coded value 104 to the
    top of the window, 1128 (= 4 * 256 + 104), which lies 128 above the last
    timestamp.
   */
  lemma UnwrapExample()
    ensures Pow2(8) == 256 && WindowStart(8, 1000) == 873
    ensures CodedPts(130, 8, 1000) == 898
    ensures CodedPts(104, 8, 1000) == 1128
  {
  }
}
