/**
 * Exact integer models of the bit operations the packer uses on non-negative longs:
 * powers of two, the bit length (64 minus the number of leading zeros) and bitwise OR.
 */
module BitMath {

  /** 2^n */
  function Pow2(n: nat): (r: nat)
    ensures r >= 1
  {
    if n == 0 then 1 else 2 * Pow2(n - 1)
  }

  /** A Java long that is not negative: node ids and their deltas. */
  type NonNegLong = x: int | 0 <= x < 0x8000_0000_0000_0000

  lemma {:induction false} Pow2Add(a: nat, b: nat)
    ensures Pow2(a + b) == Pow2(a) * Pow2(b)
  {
    if a > 0 {
      Pow2Add(a - 1, b);
    }
  }

  lemma {:induction false} LongBoundIsPow2()
    ensures Pow2(63) == 0x8000_0000_0000_0000
  {
    assert Pow2(7) == 0x80;
    assert Pow2(8) == 0x100;
    Pow2Add(8, 7);
    Pow2Add(8, 15);
    Pow2Add(8, 23);
    Pow2Add(8, 31);
    Pow2Add(8, 39);
    Pow2Add(8, 47);
    Pow2Add(8, 55);
  }

  /**
   * Number of significant bits of x. For a non-negative long x this is
   * Long.SIZE - Long.numberOfLeadingZeros(x).
   */
  function BitLength(x: nat): nat
  {
    if x == 0 then 0 else 1 + BitLength(x / 2)
  }

  /** x fits in BitLength(x) bits, and in no fewer. */
  lemma {:induction false} BitLengthBounds(x: nat)
    ensures x < Pow2(BitLength(x))
    ensures x > 0 ==> Pow2(BitLength(x) - 1) <= x
  {
    if x > 0 {
      BitLengthBounds(x / 2);
    }
  }

  /** A value below 2^k needs at most k bits. */
  lemma {:induction false} BitLengthAtMost(x: nat, k: nat)
    requires x < Pow2(k)
    ensures BitLength(x) <= k
  {
    if x > 0 {
      BitLengthAtMost(x / 2, k - 1);
    }
  }

  lemma {:induction false} BitLengthMonotone(x: nat, y: nat)
    requires x <= y
    ensures BitLength(x) <= BitLength(y)
  {
    BitLengthBounds(y);
    BitLengthAtMost(x, BitLength(y));
  }

  /** Bitwise OR of two non-negative integers, least significant bit first. */
  function BitOr(a: nat, b: nat): nat
    decreases a + b
  {
    if a == 0 && b == 0 then 0
    else (if a % 2 == 1 || b % 2 == 1 then 1 else 0) + 2 * BitOr(a / 2, b / 2)
  }

  /** OR never loses a set bit, so it is at least each operand. */
  lemma {:induction false} BitOrAtLeast(a: nat, b: nat)
    ensures a <= BitOr(a, b) && b <= BitOr(a, b)
    decreases a + b
  {
    if a != 0 || b != 0 {
      BitOrAtLeast(a / 2, b / 2);
    }
  }

  /** OR never sets a bit that neither operand has. */
  lemma {:induction false} BitOrBelow(a: nat, b: nat, k: nat)
    requires a < Pow2(k) && b < Pow2(k)
    ensures BitOr(a, b) < Pow2(k)
  {
    if a != 0 || b != 0 {
      BitOrBelow(a / 2, b / 2, k - 1);
    }
  }

  /** The bit length of an OR is the larger of the operands' bit lengths. */
  lemma {:induction false} BitLengthOfOr(a: nat, b: nat)
    ensures BitLength(BitOr(a, b)) == if BitLength(a) >= BitLength(b) then BitLength(a) else BitLength(b)
  {
    var m := if BitLength(a) >= BitLength(b) then BitLength(a) else BitLength(b);
    BitOrAtLeast(a, b);
    BitLengthMonotone(a, BitOr(a, b));
    BitLengthMonotone(b, BitOr(a, b));
    BitLengthBounds(a);
    BitLengthBounds(b);
    Pow2Monotone(BitLength(a), m);
    Pow2Monotone(BitLength(b), m);
    BitOrBelow(a, b, m);
    BitLengthAtMost(BitOr(a, b), m);
  }

  lemma {:induction false} Pow2Monotone(a: nat, b: nat)
    requires a <= b
    ensures Pow2(a) <= Pow2(b)
  {
    if a < b {
      Pow2Monotone(a, b - 1);
    }
  }

  /** The OR of all values of s, accumulated from the left as the packer's loop does. */
  function OrAll(s: seq<NonNegLong>): nat
  {
    if s == [] then 0 else BitOr(OrAll(s[..|s| - 1]), s[|s| - 1])
  }

  /** The OR of a block bounds every value of it and stays a non-negative long. */
  lemma {:induction false} OrAllBounds(s: seq<NonNegLong>)
    ensures forall i :: 0 <= i < |s| ==> s[i] <= OrAll(s)
    ensures OrAll(s) < Pow2(63)
  {
    LongBoundIsPow2();
    if s != [] {
      var init := s[..|s| - 1];
      OrAllBounds(init);
      BitOrAtLeast(OrAll(init), s[|s| - 1]);
      BitOrBelow(OrAll(init), s[|s| - 1], 63);
      assert forall i :: 0 <= i < |init| ==> s[i] == init[i];
    }
  }

  /** The OR of a block of non-negative longs is itself a non-negative long. */
  lemma {:induction false} OrAllIsLong(s: seq<NonNegLong>)
    ensures OrAll(s) < Pow2(63)
  {
    OrAllBounds(s);
  }

  /** A non-zero OR has the bit length of one of the values: the widest. */
  lemma {:induction false} OrAllWidest(s: seq<NonNegLong>)
    requires OrAll(s) > 0
    ensures exists i :: 0 <= i < |s| && BitLength(s[i]) == BitLength(OrAll(s))
  {
    var init, last := s[..|s| - 1], s[|s| - 1];
    BitLengthOfOr(OrAll(init), last);
    if BitLength(OrAll(s)) != BitLength(last) {
      OrAllWidest(init);
      var i :| 0 <= i < |init| && BitLength(init[i]) == BitLength(OrAll(init));
      assert s[i] == init[i];
    } else {
      assert s[|s| - 1] == last;
    }
  }
}
