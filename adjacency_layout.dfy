/**
 * The byte layout of one packed adjacency list, as AdjacencyPacker.preparePacking and runPacking
 * produce it, and a positional decoder for it:
 *
 *   [ header: one width byte per block ][ zero padding to 8 ][ packed blocks ][ zero padding to 8 ]
 *
 * Block b covers the deltas b * BLOCK_SIZE up to (b + 1) * BLOCK_SIZE; its header byte is the bit
 * length of the OR of its deltas, and it occupies BytesNeeded(width) payload bytes.
 */
module AdjacencyLayout {
  import opened Common
  import opened BitMath
  import opened DeltaCodec
  import opened AdjacencyPacking

  /** Number of blocks, and so of header bytes, for `length` values: ceil(length / BLOCK_SIZE). */
  function BlockCount(length: nat): (r: nat)
    ensures (r - 1) * BLOCK_SIZE < length <= r * BLOCK_SIZE
    ensures r == 0 <==> length == 0
  {
    CeilDiv(length, BLOCK_SIZE)
  }

  /** End of block b among `length` values: the tail block stops at `length`. */
  function BlockEnd(b: nat, length: nat): (r: nat)
    requires b < BlockCount(length)
    ensures b * BLOCK_SIZE < r <= length
    ensures r <= (b + 1) * BLOCK_SIZE
    ensures b + 1 < BlockCount(length) ==> r == (b + 1) * BLOCK_SIZE
  {
    if (b + 1) * BLOCK_SIZE < length then (b + 1) * BLOCK_SIZE else length
  }

  /** The width of a block: the bit length of the OR of its values, at most 63. */
  function BlockWidth(block: seq<NonNegLong>): (r: nat)
    ensures r <= 63
  {
    OrAllIsLong(block);
    BitLengthAtMost(OrAll(block), 63);
    BitLength(OrAll(block))
  }

  /** Every value of a block fits in the block's width. */
  lemma {:induction false} BlockWidthFits(block: seq<NonNegLong>)
    ensures forall i :: 0 <= i < |block| ==> block[i] < Pow2(BlockWidth(block))
  {
    OrAllBounds(block);
    BitLengthBounds(OrAll(block));
  }

  /** No smaller width would do: a non-zero width is reached by some value of the block. */
  lemma {:induction false} BlockWidthTight(block: seq<NonNegLong>)
    requires BlockWidth(block) > 0
    ensures exists i :: 0 <= i < |block| && Pow2(BlockWidth(block) - 1) <= block[i]
  {
    OrAllWidest(block);
    var i :| 0 <= i < |block| && BitLength(block[i]) == BitLength(OrAll(block));
    BitLengthBounds(block[i]);
  }

  /** The header preparePacking builds for values[..length]: one width byte per block. */
  function Header(values: seq<NonNegLong>, length: nat): (h: seq<Byte>)
    requires length <= |values|
    ensures |h| == BlockCount(length)
  {
    seq(BlockCount(length), b requires 0 <= b < BlockCount(length) =>
      BlockWidth(values[b * BLOCK_SIZE .. BlockEnd(b, length)]) as Byte)
  }

  /** Every one of the first `length` values fits the width its block's header byte gives. */
  lemma {:induction false} HeaderCovers(values: seq<NonNegLong>, length: nat, j: nat)
    requires j < length <= |values|
    ensures j / BLOCK_SIZE < BlockCount(length)
    ensures values[j] < Pow2(Header(values, length)[j / BLOCK_SIZE] as nat)
  {
    var b := j / BLOCK_SIZE;
    var block := values[b * BLOCK_SIZE .. BlockEnd(b, length)];
    BlockWidthFits(block);
    assert block[j - b * BLOCK_SIZE] == values[j];
  }

  /**
   * A block gets width 0, and so no payload bytes, exactly when all of its values are zero;
   * it keeps its header byte either way.
   */
  lemma {:induction false} ZeroWidthBlocks(values: seq<NonNegLong>, length: nat, b: nat)
    requires length <= |values| && b < BlockCount(length)
    ensures Header(values, length)[b] == 0
      <==> forall j :: b * BLOCK_SIZE <= j < BlockEnd(b, length) ==> values[j] == 0
    ensures Header(values, length)[b] == 0 ==> BytesNeeded(Header(values, length)[b] as nat) == 0
  {
    var block := values[b * BLOCK_SIZE .. BlockEnd(b, length)];
    var w := Header(values, length)[b] as nat;
    assert w == BlockWidth(block);
    if w == 0 {
      BlockWidthFits(block);
      forall j | b * BLOCK_SIZE <= j < BlockEnd(b, length) ensures values[j] == 0 {
        assert block[j - b * BLOCK_SIZE] == values[j];
      }
    } else {
      BlockWidthTight(block);
      var i :| 0 <= i < |block| && Pow2(w - 1) <= block[i];
      assert values[b * BLOCK_SIZE + i] == block[i];
    }
  }

  /** Payload bytes of the blocks before block b: where block b's packed bytes start. */
  function BlockOffset(h: seq<Byte>, b: nat): (r: nat)
    requires b <= |h|
  {
    if b == 0 then 0 else BlockOffset(h, b - 1) + BytesNeeded(h[b - 1] as nat)
  }

  /** Payload bytes the whole header asks for, summed as preparePacking sums bytesNeeded. */
  function RequiredBytes(h: seq<Byte>): (r: nat)
    ensures r % 8 == 0
  {
    OffsetsAligned(h, |h|);
    BlockOffset(h, |h|)
  }

  /** Every block starts on a multiple of 8 bytes, since a block's bytes are 8 times its width. */
  lemma {:induction false} OffsetsAligned(h: seq<Byte>, b: nat)
    requires b <= |h|
    ensures BlockOffset(h, b) % 8 == 0
  {
    if b > 0 {
      OffsetsAligned(h, b - 1);
      var w := h[b - 1] as nat;
      assert BytesNeeded(w) == 8 * w;
      assert BlockOffset(h, b) == BlockOffset(h, b - 1) + 8 * w;
    }
  }

  /** Blocks are laid out in header order: an earlier block never starts after a later one. */
  lemma {:induction false} OffsetMonotone(h: seq<Byte>, a: nat, b: nat)
    requires a <= b <= |h|
    ensures BlockOffset(h, a) <= BlockOffset(h, b)
    decreases b - a
  {
    if a < b {
      OffsetMonotone(h, a, b - 1);
    }
  }

  /** Full block b of the value array, the BLOCK_SIZE values pack reads for it. */
  function BlockValues(values: seq<NonNegLong>, b: nat): (r: seq<NonNegLong>)
    requires (b + 1) * BLOCK_SIZE <= |values|
    ensures |r| == BLOCK_SIZE
  {
    MulSucc(b, BLOCK_SIZE);
    values[b * BLOCK_SIZE .. b * BLOCK_SIZE + BLOCK_SIZE]
  }

  /** Value j of the array is value j % BLOCK_SIZE of block j / BLOCK_SIZE. */
  lemma {:induction false} BlockValuesAt(values: seq<NonNegLong>, j: nat)
    requires (j / BLOCK_SIZE + 1) * BLOCK_SIZE <= |values|
    ensures BlockValues(values, j / BLOCK_SIZE)[j % BLOCK_SIZE] == values[j]
  {
    var b := j / BLOCK_SIZE;
    MulSucc(b, BLOCK_SIZE);
    assert j == b * BLOCK_SIZE + j % BLOCK_SIZE;
  }

  /** Block b packed at the width its header byte gives. */
  function PackedBlock(values: seq<NonNegLong>, h: seq<Byte>, b: nat): (r: seq<Byte>)
    requires b < |h| && |h| * BLOCK_SIZE <= |values|
    ensures |r| == BytesNeeded(h[b] as nat)
  {
    MulMonotone(b + 1, |h|, BLOCK_SIZE);
    PackedBytes(BlockValues(values, b), h[b] as nat)
  }

  /** Every block packed, in header order. */
  function PackedBlocks(values: seq<NonNegLong>, h: seq<Byte>): (r: seq<seq<Byte>>)
    requires |h| * BLOCK_SIZE <= |values|
    ensures |r| == |h|
  {
    seq(|h|, b requires 0 <= b < |h| => PackedBlock(values, h, b))
  }

  /** The packed blocks one after the other: what runPacking's main loop writes after the header. */
  function Payload(values: seq<NonNegLong>, h: seq<Byte>): (r: seq<Byte>)
    requires |h| * BLOCK_SIZE <= |values|
    ensures |r| == RequiredBytes(h)
  {
    PayloadLength(values, h, |h|);
    ConcatUpTo(PackedBlocks(values, h), |h|)
  }

  /** The first b packed blocks take up exactly the bytes the header gives them. */
  lemma {:induction false} PayloadLength(values: seq<NonNegLong>, h: seq<Byte>, b: nat)
    requires b <= |h| && |h| * BLOCK_SIZE <= |values|
    ensures |ConcatUpTo(PackedBlocks(values, h), b)| == BlockOffset(h, b)
  {
    if b > 0 {
      PayloadLength(values, h, b - 1);
    }
  }

  /** Block b's bytes sit in the payload between its own offset and the next block's. */
  lemma {:induction false} PayloadSlice(values: seq<NonNegLong>, h: seq<Byte>, b: nat)
    requires b < |h| && |h| * BLOCK_SIZE <= |values|
    ensures BlockOffset(h, b + 1) <= RequiredBytes(h)
    ensures Payload(values, h)[BlockOffset(h, b) .. BlockOffset(h, b + 1)] == PackedBlock(values, h, b)
  {
    var cs := PackedBlocks(values, h);
    ConcatSlice(cs, b, |h|);
    PayloadLength(values, h, b);
    PayloadLength(values, h, |h|);
  }

  /** Bytes runPacking reserves: header and payload, each rounded up to a multiple of 8. */
  function AllocationSize(h: seq<Byte>): (r: nat)
    ensures r % 8 == 0
    ensures |h| + RequiredBytes(h) <= Align8(|h|) + RequiredBytes(h) <= r
  {
    Align8(Align8(|h|) + RequiredBytes(h))
  }

  /** What runPacking leaves in its reserved region: header, padding, payload, padding. */
  function Unit(values: seq<NonNegLong>, h: seq<Byte>): (r: seq<Byte>)
    requires |h| * BLOCK_SIZE <= |values|
    ensures |r| == AllocationSize(h)
  {
    h + Zeros(Align8(|h|) - |h|) + Payload(values, h) + Zeros(AllocationSize(h) - Align8(|h|) - RequiredBytes(h))
  }

  /** The delta at position j, read from the payload through the header, as a cursor reads it. */
  function BlockDelta(payload: seq<Byte>, h: seq<Byte>, j: nat): (r: nat)
    requires j / BLOCK_SIZE < |h| && |payload| == RequiredBytes(h)
  {
    var b, k := j / BLOCK_SIZE, j % BLOCK_SIZE;
    var w := h[b] as nat;
    OffsetMonotone(h, b + 1, |h|);
    UnpackAt(payload[BlockOffset(h, b) .. BlockOffset(h, b + 1)], w, k)
  }

  /** The header and the payload of one packed list, as a reader finds them in memory. */
  datatype Located = Located(header: seq<Byte>, payload: seq<Byte>)

  /**
   * Where a reader finds the list of `degree` values stored at `offset`: its header of one byte
   * per block, then, after padding to a multiple of 8, the payload the header asks for; None
   * when either would lie outside memory.
   */
  function Locate(memory: seq<Byte>, offset: nat, degree: nat): (r: Option<Located>)
    ensures r.Some? ==> |r.value.header| == BlockCount(degree)
    ensures r.Some? ==> |r.value.payload| == RequiredBytes(r.value.header)
  {
    var blocks := BlockCount(degree);
    if offset + blocks > |memory| then None
    else
      var h := memory[offset .. offset + blocks];
      var start := offset + Align8(blocks);
      if start + RequiredBytes(h) > |memory| then None
      else Some(Located(h, memory[start .. start + RequiredBytes(h)]))
  }

  /**
   * The values a reader finds for the list of `degree` values stored at `offset`: the running
   * sums of the deltas its header and payload hold.
   */
  function Decode(memory: seq<Byte>, offset: nat, degree: nat): (r: Option<seq<int>>)
    ensures r.Some? ==> |r.value| == degree
  {
    match Locate(memory, offset, degree)
    case None => None
    case Some(unit) => Some(PrefixSum(Deltas(unit.payload, unit.header, degree)))
  }

  /** The first `degree` deltas a payload holds under header h. */
  function Deltas(payload: seq<Byte>, h: seq<Byte>, degree: nat): (r: seq<int>)
    requires degree <= |h| * BLOCK_SIZE && |payload| == RequiredBytes(h)
    ensures |r| == degree
  {
    if degree == 0 then [] else Deltas(payload, h, degree - 1) + [BlockDelta(payload, h, degree - 1) as int]
  }

  /**
   * Decoding a packed unit, wherever it sits in memory, gives back the running sums of the
   * `degree` deltas it was packed from.
   */
  lemma {:induction false} UnitRoundTrip(values: seq<NonNegLong>, degree: nat, before: seq<Byte>, after: seq<Byte>)
    requires degree <= |values|
    requires BlockCount(degree) * BLOCK_SIZE <= |values|
    ensures Decode(before + Unit(values, Header(values, degree)) + after, |before|, degree)
      == Some(PrefixSum(values[..degree]))
  {
    UnitLayout(values, Header(values, degree), degree, before, after);
    PayloadDeltas(values, degree);
  }

  /** Decode finds, for any header, the header and payload where runPacking puts them. */
  lemma {:induction false} UnitLayout(values: seq<NonNegLong>, h: seq<Byte>, degree: nat, before: seq<Byte>, after: seq<Byte>)
    requires |h| == BlockCount(degree) && |h| * BLOCK_SIZE <= |values|
    ensures Decode(before + Unit(values, h) + after, |before|, degree)
      == Some(PrefixSum(Deltas(Payload(values, h), h, degree)))
  {
    LocateUnit(before, h, Zeros(Align8(|h|) - |h|), Payload(values, h),
      Zeros(AllocationSize(h) - Align8(|h|) - RequiredBytes(h)), after, degree);
  }

  /** Locate finds the header and the payload of a unit of the right sizes, wherever it sits. */
  lemma {:induction false} LocateUnit(before: seq<Byte>, h: seq<Byte>, pad: seq<Byte>, payload: seq<Byte>,
      rest: seq<Byte>, after: seq<Byte>, degree: nat)
    requires |h| == BlockCount(degree) && |pad| == Align8(|h|) - |h| && |payload| == RequiredBytes(h)
    ensures Locate(before + (h + pad + payload + rest) + after, |before|, degree) == Some(Located(h, payload))
  {
    UnitParts(before, h, pad, payload, rest, after);
  }

  /** Every delta read back through the header is the value that was packed. */
  lemma {:induction false} PayloadDeltas(values: seq<NonNegLong>, degree: nat)
    requires degree <= |values|
    requires BlockCount(degree) * BLOCK_SIZE <= |values|
    ensures Deltas(Payload(values, Header(values, degree)), Header(values, degree), degree) == values[..degree]
  {
    var h := Header(values, degree);
    var payload := Payload(values, h);
    forall j | 0 <= j < degree
      ensures j / BLOCK_SIZE < |h| && BlockDelta(payload, h, j) == values[j]
    {
      DeltaAt(values, degree, j);
    }
    DeltasMatch(payload, h, values, degree);
  }

  /** Deltas reads back a sequence when it reads back each of its values. */
  lemma {:induction false} DeltasMatch(payload: seq<Byte>, h: seq<Byte>, values: seq<NonNegLong>, n: nat)
    requires n <= |h| * BLOCK_SIZE && n <= |values| && |payload| == RequiredBytes(h)
    requires forall j :: 0 <= j < n ==> j / BLOCK_SIZE < |h| && BlockDelta(payload, h, j) == values[j]
    ensures Deltas(payload, h, n) == values[..n]
  {
    if n > 0 {
      DeltasMatch(payload, h, values, n - 1);
      assert values[..n] == values[..n - 1] + [values[n - 1]];
    }
  }

  /** One position of UnitRoundTrip: the delta read back is the value that was packed. */
  lemma {:induction false} DeltaAt(values: seq<NonNegLong>, degree: nat, j: nat)
    requires j < degree <= |values|
    requires BlockCount(degree) * BLOCK_SIZE <= |values|
    ensures j / BLOCK_SIZE < BlockCount(degree)
    ensures BlockDelta(Payload(values, Header(values, degree)), Header(values, degree), j) == values[j]
  {
    HeaderCovers(values, degree, j);
    ReadBack(values, Header(values, degree), j);
  }

  /** A value packed into the payload of any header whose width for it is wide enough is read back. */
  lemma {:induction false} ReadBack(values: seq<NonNegLong>, h: seq<Byte>, j: nat)
    requires j / BLOCK_SIZE < |h| && |h| * BLOCK_SIZE <= |values|
    requires values[j] < Pow2(h[j / BLOCK_SIZE] as nat)
    ensures BlockDelta(Payload(values, h), h, j) == values[j]
  {
    var payload := Payload(values, h);
    var b, k := j / BLOCK_SIZE, j % BLOCK_SIZE;
    MulMonotone(b + 1, |h|, BLOCK_SIZE);
    var block := BlockValues(values, b);
    PayloadSlice(values, h, b);
    BlockValuesAt(values, j);
    calc {
      BlockDelta(payload, h, j);
      UnpackAt(payload[BlockOffset(h, b) .. BlockOffset(h, b + 1)], h[b] as nat, k);
      UnpackAt(PackedBytes(block, h[b] as nat), h[b] as nat, k);
      { PackRoundTrip(block, h[b] as nat, k); }
      values[j];
    }
  }

  /** Where the header and the payload of a unit sit in memory. */
  lemma {:induction false} UnitParts<T>(before: seq<T>, h: seq<T>, pad: seq<T>, payload: seq<T>, rest: seq<T>, after: seq<T>)
    ensures (before + (h + pad + payload + rest) + after)[|before| .. |before| + |h|] == h
    ensures (before + (h + pad + payload + rest) + after)[|before| + |h| + |pad| .. |before| + |h| + |pad| + |payload|]
      == payload
  {
  }
}
