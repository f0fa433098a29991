/**
 * The block format the packer writes: BLOCK_SIZE values of one common bit width, laid out as a
 * little-endian bit stream (value 0 in the lowest bits of byte 0). AdjacencyPacking.pack and
 * its unpacking counterpart are not part of this model; the functions below are this model's
 * own definitions of that format, with the round trip proved for values that fit the width.
 */
module AdjacencyPacking {
  import opened Common
  import opened BitMath

  /** Number of values per packed block. */
  const BLOCK_SIZE: nat := 64

  /** The low w bits of v, least significant first. */
  function ToBits(v: nat, w: nat): (r: seq<bool>)
    ensures |r| == w
  {
    if w == 0 then [] else [v % 2 == 1] + ToBits(v / 2, w - 1)
  }

  /** The number whose bits, least significant first, are b. */
  function FromBits(b: seq<bool>): (r: nat)
    ensures r < Pow2(|b|)
  {
    if b == [] then 0 else (if b[0] then 1 else 0) + 2 * FromBits(b[1..])
  }

  /** A value that fits in w bits is read back from its w bits. */
  lemma {:induction false} FromToBits(v: nat, w: nat)
    requires v < Pow2(w)
    ensures FromBits(ToBits(v, w)) == v
  {
    if w > 0 {
      FromToBits(v / 2, w - 1);
      assert ToBits(v, w)[1..] == ToBits(v / 2, w - 1);
    }
  }

  /** Every bit string is the encoding of the number it denotes. */
  lemma {:induction false} ToFromBits(b: seq<bool>)
    ensures ToBits(FromBits(b), |b|) == b
  {
    if b != [] {
      ToFromBits(b[1..]);
      var v := FromBits(b);
      assert v % 2 == (if b[0] then 1 else 0) && v / 2 == FromBits(b[1..]);
      assert ToBits(v, |b|) == [b[0]] + b[1..];
    }
  }

  /** The values of a block, each cut to its low w bits, one after the other. */
  function BlockBits(block: seq<NonNegLong>, w: nat): (r: seq<bool>)
    ensures |r| == |block| * w
  {
    if block == [] then [] else ToBits(block[0], w) + BlockBits(block[1..], w)
  }

  /**
   * The w bits of slot i of a bit stream: skip i slots of w bits, take the next w (fewer when
   * the stream runs out).
   */
  function Slot(bits: seq<bool>, w: nat, i: nat): (r: seq<bool>)
    ensures |r| <= w
  {
    if |bits| < w then []
    else if i == 0 then bits[..w]
    else Slot(bits[w..], w, i - 1)
  }

  /** Slot i is the bit range i * w up to (i + 1) * w whenever the stream reaches that far. */
  lemma {:induction false} SlotAt(bits: seq<bool>, w: nat, i: nat)
    requires 0 <= i * w && i * w + w <= |bits|
    ensures Slot(bits, w, i) == bits[i * w .. i * w + w]
  {
    if i > 0 {
      MulSucc(i - 1, w);
      SlotAt(bits[w..], w, i - 1);
    }
  }

  /** Slot i of a block's bit stream holds value i, cut to w bits. */
  lemma {:induction false} SlotOfBlockBits(block: seq<NonNegLong>, w: nat, i: nat)
    requires i < |block|
    ensures Slot(BlockBits(block, w), w, i) == ToBits(block[i], w)
  {
    var bits := BlockBits(block, w);
    assert bits[..w] == ToBits(block[0], w);
    if i > 0 {
      assert bits[w..] == BlockBits(block[1..], w);
      SlotOfBlockBits(block[1..], w, i - 1);
    }
  }

  lemma {:induction false} MultipleOf8(k: nat)
    ensures (8 * k) % 8 == 0
  {
  }

  lemma {:induction false} Mod8Step(n: nat)
    requires n % 8 == 0 && n > 0
    ensures n >= 8 && (n - 8) % 8 == 0
  {
  }

  lemma {:induction false} MulSucc(i: nat, w: nat)
    ensures 0 <= i * w
    ensures (i + 1) * w == i * w + w
  {
  }

  lemma {:induction false} MulMonotone(a: nat, b: nat, w: nat)
    requires a <= b
    ensures a * w <= b * w
  {
  }

  /** Groups of eight bits, least significant first, as bytes. */
  function BitsToBytes(bits: seq<bool>): (r: seq<Byte>)
    requires |bits| % 8 == 0
    ensures |r| * 8 == |bits|
  {
    if bits == [] then []
    else BitsToBytes(bits[..|bits| - 8]) + [ByteOf(bits[|bits| - 8..])]
  }

  /** The byte whose eight bits, least significant first, are `bits`. */
  function ByteOf(bits: seq<bool>): (r: Byte)
    requires |bits| == 8
    ensures ToBits(r as nat, 8) == bits
  {
    assert Pow2(|bits|) == 256;
    ToFromBits(bits);
    FromBits(bits) as Byte
  }

  /** The bits of a byte sequence, eight per byte, least significant first. */
  function BytesToBits(bytes: seq<Byte>): (r: seq<bool>)
    ensures |r| == 8 * |bytes|
  {
    if bytes == [] then [] else BytesToBits(bytes[..|bytes| - 1]) + ToBits(bytes[|bytes| - 1] as nat, 8)
  }

  /** Reading bytes back as bits gives the bits they were made of. */
  lemma {:induction false} BytesRoundTrip(bits: seq<bool>)
    requires |bits| % 8 == 0
    ensures BytesToBits(BitsToBytes(bits)) == bits
  {
    if bits != [] {
      Mod8Step(|bits|);
      var init, last := bits[..|bits| - 8], bits[|bits| - 8..];
      calc {
        BytesToBits(BitsToBytes(bits));
        BytesToBits(BitsToBytes(init) + [ByteOf(last)]);
        { LastByte(BitsToBytes(init), ByteOf(last)); }
        BytesToBits(BitsToBytes(init)) + ToBits(ByteOf(last) as nat, 8);
        { BytesRoundTrip(init); }
        init + last;
        bits;
      }
    }
  }

  /** Appending a byte appends its eight bits. */
  lemma {:induction false} LastByte(bytes: seq<Byte>, b: Byte)
    ensures BytesToBits(bytes + [b]) == BytesToBits(bytes) + ToBits(b as nat, 8)
  {
    assert (bytes + [b])[..|bytes|] == bytes;
  }

  /**
   * Bytes one block of BLOCK_SIZE values occupies at `bits` bits each: ceil(BLOCK_SIZE * bits / 8),
   * as AdjacencyPacker.bytesNeeded computes it.
   */
  function BytesNeeded(bits: nat): (r: nat)
    ensures r * 8 == BLOCK_SIZE * bits
  {
    var r := CeilDiv(BLOCK_SIZE * bits, 8);
    assert BLOCK_SIZE * bits == 64 * bits;
    assert 64 * bits <= r * 8 < 64 * bits + 8;
    assert r == 8 * bits;
    r
  }

  /** What packing one block at width w writes. */
  function PackedBytes(block: seq<NonNegLong>, w: nat): (r: seq<Byte>)
    requires |block| == BLOCK_SIZE
    ensures |r| == BytesNeeded(w)
  {
    var bits := BlockBits(block, w);
    assert |bits| == 8 * (8 * w);
    MultipleOf8(8 * w);
    BitsToBytes(bits)
  }

  /** Value i of a block packed at width w, read from the block's bytes. */
  function UnpackAt(bytes: seq<Byte>, w: nat, i: nat): (r: nat)
    ensures r < Pow2(w)
  {
    var b := Slot(BytesToBits(bytes), w, i);
    Pow2Monotone(|b|, w);
    FromBits(b)
  }

  /** Unpacking a packed block gives back every value that fits the block's width. */
  lemma {:induction false} PackRoundTrip(block: seq<NonNegLong>, w: nat, i: nat)
    requires |block| == BLOCK_SIZE && i < BLOCK_SIZE
    requires block[i] < Pow2(w)
    ensures UnpackAt(PackedBytes(block, w), w, i) == block[i]
  {
    var bits := BlockBits(block, w);
    assert |bits| == 8 * (8 * w);
    MultipleOf8(8 * w);
    BytesRoundTrip(bits);
    SlotOfBlockBits(block, w, i);
    FromToBits(block[i], w);
  }
}
