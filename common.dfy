/** Small shared vocabulary: bytes, optional values, integer rounding and 32-bit wrap-around. */
module Common {

  /** One byte of the arena (the header bytes written are bit widths 0..63, so sign plays no part). */
  newtype Byte = x: int | 0 <= x < 256

  datatype Option<T> = None | Some(value: T)

  const INT_MIN: int := -0x8000_0000
  const INT_MAX: int := 0x7fff_ffff
  const LONG_MIN: int := -0x8000_0000_0000_0000
  const LONG_MAX: int := 0x7fff_ffff_ffff_ffff

  /** n zero bytes: what a freshly reserved arena region holds. */
  function Zeros(n: nat): (r: seq<Byte>)
    ensures |r| == n
    ensures forall i :: 0 <= i < n ==> r[i] == 0
  {
    seq(n, _ => 0)
  }

  /** Division rounded up, for a non-negative dividend. */
  function CeilDiv(x: nat, d: nat): (r: nat)
    requires d > 0
    ensures x <= r * d < x + d
  {
    (x + d - 1) / d
  }

  /** The least multiple of 8 (Long.BYTES) that is at least x: BitUtil.align(x, Long.BYTES). */
  function Align8(x: nat): (r: nat)
    ensures r % 8 == 0
    ensures x <= r < x + 8
  {
    x + (8 - x % 8) % 8
  }

  /** Narrowing of an integer to a Java int: two's complement wrap-around into [INT_MIN, INT_MAX]. */
  function WrapInt32(x: int): (r: int)
    ensures INT_MIN <= r <= INT_MAX
    ensures (r - x) % 0x1_0000_0000 == 0
    ensures INT_MIN <= x <= INT_MAX ==> r == x
  {
    var m := x % 0x1_0000_0000;
    if m > INT_MAX then m - 0x1_0000_0000 else m
  }

  /** Narrowing of an integer to a Java long: two's complement wrap-around into [LONG_MIN, LONG_MAX]. */
  function WrapInt64(x: int): (r: int)
    ensures LONG_MIN <= r <= LONG_MAX
    ensures (r - x) % 0x1_0000_0000_0000_0000 == 0
    ensures LONG_MIN <= x <= LONG_MAX ==> r == x
  {
    var m := x % 0x1_0000_0000_0000_0000;
    if m > LONG_MAX then m - 0x1_0000_0000_0000_0000 else m
  }

  /** Zero runs concatenate to a zero run. */
  lemma {:induction false} ZerosSplit(a: nat, b: nat)
    ensures Zeros(a) + Zeros(b) == Zeros(a + b)
  {
  }

  lemma {:induction false} SliceOfConcatLeft<T>(a: seq<T>, b: seq<T>, x: nat, y: nat)
    requires x <= y <= |a|
    ensures (a + b)[x..y] == a[x..y]
  {
  }

  lemma {:induction false} SliceOfConcatRight<T>(a: seq<T>, b: seq<T>)
    ensures (a + b)[|a|..|a| + |b|] == b
  {
  }

  /** The pieces cs[0], ..., cs[n - 1], one after the other. */
  function ConcatUpTo<T>(cs: seq<seq<T>>, n: nat): (r: seq<T>)
    requires n <= |cs|
  {
    if n == 0 then [] else ConcatUpTo(cs, n - 1) + cs[n - 1]
  }

  /** Piece b sits in the concatenation right after the pieces before it. */
  lemma {:induction false} ConcatSlice<T>(cs: seq<seq<T>>, b: nat, n: nat)
    requires b < n <= |cs|
    ensures |ConcatUpTo(cs, b)| + |cs[b]| <= |ConcatUpTo(cs, n)|
    ensures ConcatUpTo(cs, n)[|ConcatUpTo(cs, b)| .. |ConcatUpTo(cs, b)| + |cs[b]|] == cs[b]
  {
    if n == b + 1 {
      SliceOfConcatRight(ConcatUpTo(cs, b), cs[b]);
    } else {
      ConcatSlice(cs, b, n - 1);
      SliceOfConcatLeft(ConcatUpTo(cs, n - 1), cs[n - 1], |ConcatUpTo(cs, b)|, |ConcatUpTo(cs, b)| + |cs[b]|);
    }
  }
}
