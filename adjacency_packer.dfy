/**
 * AdjacencyPacker: turns the target ids of one adjacency list, held in a prefix of a long
 * array, into one packed unit in the allocator's arena. The ids are sorted, aggregated and
 * delta-encoded in place, the deltas are cut into blocks of BLOCK_SIZE, each block gets the
 * width of its widest delta in a header byte, and header and packed blocks are written into
 * freshly reserved arena space. The offset of that space is the result.
 *
 * Every unit written here decodes, through AdjacencyLayout.Decode, to the aggregated, sorted
 * ids it was built from.
 */
module AdjacencyPacker {
  import opened Common
  import opened BitMath
  import opened DeltaCodec
  import opened AdjacencyPacking
  import opened AdjacencyLayout
  import opened Arena

  /** The least multiple of BLOCK_SIZE that is at least x, computed without a bound. */
  function RoundUpToBlock(x: int): (r: int)
    ensures r % BLOCK_SIZE == 0
    ensures x <= r < x + BLOCK_SIZE
  {
    var q := (x + BLOCK_SIZE - 1) / BLOCK_SIZE;
    assert q * BLOCK_SIZE % BLOCK_SIZE == 0 by { MultipleOf64(q); }
    q * BLOCK_SIZE
  }

  lemma {:induction false} MultipleOf64(q: int)
    ensures (q * 64) % 64 == 0
  {
  }

  /**
   * align(long): the length rounded up to a multiple of BLOCK_SIZE. Within the last
   * BLOCK_SIZE - 1 longs the rounding passes Long.MAX_VALUE and wraps to Long.MIN_VALUE.
   */
  function AlignLong(length: int): (r: int)
    requires LONG_MIN <= length <= LONG_MAX
    ensures LONG_MIN <= r <= LONG_MAX
    ensures length <= LONG_MAX - (BLOCK_SIZE - 1) ==> r % BLOCK_SIZE == 0 && length <= r < length + BLOCK_SIZE
    ensures length > LONG_MAX - (BLOCK_SIZE - 1) ==> r == LONG_MIN
  {
    var up := RoundUpToBlock(length);
    assert length > LONG_MAX - (BLOCK_SIZE - 1) ==> up == LONG_MAX + 1 by {
      if length > LONG_MAX - (BLOCK_SIZE - 1) {
        OnlyMultipleInRange(up, LONG_MAX + 1);
      }
    }
    WrapInt64(up)
  }

  /**
   * align(int): the same rounding done on a long and narrowed to an int, so that within the
   * last BLOCK_SIZE - 1 ints the result wraps to Integer.MIN_VALUE.
   */
  function AlignInt(length: int): (r: int)
    requires INT_MIN <= length <= INT_MAX
    ensures INT_MIN <= r <= INT_MAX
    ensures length <= INT_MAX - (BLOCK_SIZE - 1) ==> r % BLOCK_SIZE == 0 && length <= r < length + BLOCK_SIZE
    ensures length > INT_MAX - (BLOCK_SIZE - 1) ==> r == INT_MIN
  {
    var up := RoundUpToBlock(length);
    assert length > INT_MAX - (BLOCK_SIZE - 1) ==> up == INT_MAX + 1 by {
      if length > INT_MAX - (BLOCK_SIZE - 1) {
        OnlyMultipleInRange(up, INT_MAX + 1);
      }
    }
    WrapInt32(up)
  }

  /** Two multiples of BLOCK_SIZE less than BLOCK_SIZE apart are equal. */
  lemma {:induction false} OnlyMultipleInRange(a: int, b: int)
    requires a % BLOCK_SIZE == 0 && b % BLOCK_SIZE == 0
    requires b - BLOCK_SIZE < a < b + BLOCK_SIZE
    ensures a == b
  {
    assert a == BLOCK_SIZE * (a / BLOCK_SIZE) && b == BLOCK_SIZE * (b / BLOCK_SIZE);
  }

  /** Aligning is idempotent on the range where it does not wrap. */
  lemma {:induction false} AlignLongIdempotent(length: int)
    requires LONG_MIN <= length <= LONG_MAX - (BLOCK_SIZE - 1)
    ensures AlignLong(AlignLong(length)) == AlignLong(length)
  {
    var a := AlignLong(length);
    OnlyMultipleInRange(AlignLong(a), a);
  }

  /**
   * bitsNeeded: ORs values[offset .. offset + length] together and returns the bit length of
   * the result, which is the width of that block.
   */
  method BitsNeeded(values: array<NonNegLong>, offset: nat, length: nat) returns (bits: nat)
    requires offset + length <= values.Length
    ensures bits == BlockWidth(values[offset .. offset + length])
  {
    var acc: nat := 0;
    var i := offset;
    while i < offset + length
      invariant offset <= i <= offset + length
      invariant acc == OrAll(values[offset .. i])
    {
      assert values[offset .. i + 1][..i - offset] == values[offset .. i];
      acc := BitOr(acc, values[i]);
      i := i + 1;
    }
    bits := BitLength(acc);
  }

  /** Why a call ends in an exception instead of an offset. */
  datatype PackError =
    | HeaderIndexOutOfBounds   // the tail block is written to header[0] of an empty header
    | AllocationSizeOverflow   // Math.toIntExact rejects an allocation size above Integer.MAX_VALUE

  /** The offset of the written unit, or the exception that ended the call. */
  datatype PackResult = Packed(offset: nat) | Failed(error: PackError)

  /**
   * AdjacencyPacking.pack: writes block values[offset .. offset + BLOCK_SIZE], packed at width
   * `bits`, at ptr and returns the position right after it.
   */
  method Pack(alloc: Allocator, bits: Byte, values: array<NonNegLong>, offset: nat, ptr: nat,
              ghost block: seq<NonNegLong>) returns (next: nat)
    requires alloc.Valid()
    requires offset + BLOCK_SIZE <= values.Length && values[offset .. offset + BLOCK_SIZE] == block
    requires ptr + BytesNeeded(bits as nat) <= |alloc.Memory()|
    modifies alloc.buf
    ensures alloc.Valid()
    ensures next == ptr + BytesNeeded(bits as nat)
    ensures alloc.Memory() == old(alloc.Memory())[..ptr] + PackedBytes(block, bits as nat) + old(alloc.Memory())[next..]
  {
    var bytes := PackedBytes(values[offset .. offset + BLOCK_SIZE], bits as nat);
    alloc.WriteBytes(ptr, bytes);
    next := ptr + |bytes|;
  }

  lemma {:induction false} AppendAssoc<T>(a: seq<T>, b: seq<T>, c: seq<T>)
    ensures (a + b) + c == a + (b + c)
  {
  }

  /** Overwriting the start of a zero run with a piece extends the written part by the piece. */
  lemma {:induction false} FillStep(written: seq<Byte>, piece: seq<Byte>, n: nat)
    requires |piece| <= n
    ensures (written + Zeros(n))[..|written|] + piece + (written + Zeros(n))[|written| + |piece|..]
      == (written + piece) + Zeros(n - |piece|)
  {
    var m := written + Zeros(n);
    assert m[..|written|] == written;
    assert m[|written| + |piece|..] == Zeros(n - |piece|);
  }

  /** Block b of the value array is what pack reads at offset b * BLOCK_SIZE. */
  lemma {:induction false} PackedBlockAt(values: seq<NonNegLong>, h: seq<Byte>, b: nat)
    requires b < |h| && |h| * BLOCK_SIZE <= |values|
    ensures b * BLOCK_SIZE + BLOCK_SIZE <= |values|
    ensures PackedBlocks(values, h)[b] == PackedBytes(values[b * BLOCK_SIZE .. b * BLOCK_SIZE + BLOCK_SIZE], h[b] as nat)
  {
    MulSucc(b, BLOCK_SIZE);
    MulMonotone(b + 1, |h|, BLOCK_SIZE);
  }

  /**
   * The main packing loop of runPacking: packs every block, at the width its header byte
   * gives, into the zero bytes that start at ptr, one block right after the other.
   */
  method PackBlocks(alloc: Allocator, values: array<NonNegLong>, header: array<Byte>, ptr: nat,
                    ghost before: seq<Byte>, ghost extra: nat)
    requires alloc.Valid() && header != alloc.buf
    requires header.Length * BLOCK_SIZE <= values.Length
    requires ptr == |before|
    requires alloc.Memory() == before + ConcatUpTo(PackedBlocks(values[..], header[..]), 0) + Zeros(RequiredBytes(header[..]) + extra)
    modifies alloc.buf
    ensures alloc.Valid()
    ensures alloc.Memory() == before + Payload(values[..], header[..]) + Zeros(extra)
  {
    ghost var h, vs := header[..], values[..];
    var next := ptr;
    var inOffset := 0;
    var b := 0;
    while b < header.Length
      invariant alloc.Valid()
      invariant header[..] == h && values[..] == vs
      invariant b <= |h| && inOffset == b * BLOCK_SIZE
      invariant BlockOffset(h, b) <= RequiredBytes(h)
      invariant next == |before| + BlockOffset(h, b)
      invariant alloc.Memory() == Filling(before, vs, h, b, extra)
    {
      next := PackNext(alloc, values, header, inOffset, next, before, vs, h, b, extra);
      inOffset := inOffset + BLOCK_SIZE;
      b := b + 1;
    }
    PackDone(before, vs, h, b, extra);
  }

  /** One round of the packing loop: block b goes where Filling at b has its first zero byte. */
  method PackNext(alloc: Allocator, values: array<NonNegLong>, header: array<Byte>, inOffset: nat, ptr: nat,
                  ghost before: seq<Byte>, ghost vs: seq<NonNegLong>, ghost h: seq<Byte>, b: nat, ghost extra: nat)
    returns (next: nat)
    requires alloc.Valid() && header != alloc.buf
    requires header[..] == h && values[..] == vs
    requires b < |h| && |h| * BLOCK_SIZE <= |vs| && inOffset == b * BLOCK_SIZE
    requires BlockOffset(h, b) <= RequiredBytes(h) && ptr == |before| + BlockOffset(h, b)
    requires alloc.Memory() == Filling(before, vs, h, b, extra)
    modifies alloc.buf
    ensures alloc.Valid()
    ensures BlockOffset(h, b + 1) <= RequiredBytes(h) && next == |before| + BlockOffset(h, b + 1)
    ensures alloc.Memory() == Filling(before, vs, h, b + 1, extra)
  {
    PackStep(before, vs, h, b, extra);
    next := Pack(alloc, header[b], values, inOffset, ptr, vs[b * BLOCK_SIZE .. b * BLOCK_SIZE + BLOCK_SIZE]);
  }

  /**
   * The arena while the packing loop runs: the bytes before the payload, the first b packed
   * blocks, then zero bytes up to the end of the unit.
   */
  ghost function Filling(before: seq<Byte>, values: seq<NonNegLong>, h: seq<Byte>, b: nat, extra: nat): seq<Byte>
    requires b <= |h| && |h| * BLOCK_SIZE <= |values| && BlockOffset(h, b) <= RequiredBytes(h)
  {
    before + ConcatUpTo(PackedBlocks(values, h), b) + Zeros(RequiredBytes(h) - BlockOffset(h, b) + extra)
  }

  /** Packing block b where the loop left off is what turns Filling at b into Filling at b + 1. */
  lemma {:induction false} PackStep(before: seq<Byte>, values: seq<NonNegLong>, h: seq<Byte>, b: nat, extra: nat)
    requires b < |h| && |h| * BLOCK_SIZE <= |values| && BlockOffset(h, b) <= RequiredBytes(h)
    ensures b * BLOCK_SIZE + BLOCK_SIZE <= |values| && (b + 1) * BLOCK_SIZE == b * BLOCK_SIZE + BLOCK_SIZE
    ensures BlockOffset(h, b + 1) <= RequiredBytes(h)
    ensures |Filling(before, values, h, b, extra)| == |before| + RequiredBytes(h) + extra
    ensures var mem, at := Filling(before, values, h, b, extra), |before| + BlockOffset(h, b);
      mem[..at] + PackedBytes(values[b * BLOCK_SIZE .. b * BLOCK_SIZE + BLOCK_SIZE], h[b] as nat)
        + mem[at + BytesNeeded(h[b] as nat)..]
      == Filling(before, values, h, b + 1, extra)
  {
    MulSucc(b, BLOCK_SIZE);
    MulMonotone(b + 1, |h|, BLOCK_SIZE);
    OffsetMonotone(h, b + 1, |h|);
    PayloadLength(values, h, b);
    PackStepMemory(before, values, h, b, extra);
  }

  lemma {:induction false} PackStepMemory(before: seq<Byte>, values: seq<NonNegLong>, h: seq<Byte>, b: nat, extra: nat)
    requires b < |h| && |h| * BLOCK_SIZE <= |values| && BlockOffset(h, b + 1) <= RequiredBytes(h)
    requires b * BLOCK_SIZE + BLOCK_SIZE <= |values|
    requires |ConcatUpTo(PackedBlocks(values, h), b)| == BlockOffset(h, b)
    ensures var mem, at := Filling(before, values, h, b, extra), |before| + BlockOffset(h, b);
      mem[..at] + PackedBytes(values[b * BLOCK_SIZE .. b * BLOCK_SIZE + BLOCK_SIZE], h[b] as nat)
        + mem[at + BytesNeeded(h[b] as nat)..]
      == Filling(before, values, h, b + 1, extra)
  {
    var cs := PackedBlocks(values, h);
    var done := before + ConcatUpTo(cs, b);
    var n := RequiredBytes(h) - BlockOffset(h, b) + extra;
    var piece := PackedBytes(values[b * BLOCK_SIZE .. b * BLOCK_SIZE + BLOCK_SIZE], h[b] as nat);
    assert piece == cs[b] by {
      PackedBlockAt(values, h, b);
    }
    calc {
      Filling(before, values, h, b, extra)[..|done|] + piece + Filling(before, values, h, b, extra)[|done| + |piece|..];
      (done + Zeros(n))[..|done|] + piece + (done + Zeros(n))[|done| + |piece|..];
      { FillStep(done, piece, n); }
      (done + piece) + Zeros(n - |piece|);
      { AppendAssoc(before, ConcatUpTo(cs, b), piece); }
      before + ConcatUpTo(cs, b + 1) + Zeros(n - |piece|);
      Filling(before, values, h, b + 1, extra);
    }
  }

  /** After the last block, Filling is the payload followed by the extra zero bytes. */
  lemma {:induction false} PackDone(before: seq<Byte>, values: seq<NonNegLong>, h: seq<Byte>, b: nat, extra: nat)
    requires b == |h| && |h| * BLOCK_SIZE <= |values|
    ensures BlockOffset(h, b) <= RequiredBytes(h)
    ensures Filling(before, values, h, b, extra) == before + Payload(values, h) + Zeros(extra)
  {
  }

  /**
   * Copying the header to the start of a fresh allocation leaves the padding and the whole
   * payload region zero: the state the packing loop starts from.
   */
  lemma {:induction false} HeaderWritten(mem: seq<Byte>, values: seq<NonNegLong>, h: seq<Byte>)
    requires |h| * BLOCK_SIZE <= |values|
    ensures var m := mem + Zeros(AllocationSize(h));
      m[..|mem|] + h + m[|mem| + |h|..]
      == (mem + h + Zeros(Align8(|h|) - |h|)) + ConcatUpTo(PackedBlocks(values, h), 0)
         + Zeros(RequiredBytes(h) + (AllocationSize(h) - Align8(|h|) - RequiredBytes(h)))
  {
    var pad, rest := Align8(|h|) - |h|, RequiredBytes(h) + (AllocationSize(h) - Align8(|h|) - RequiredBytes(h));
    FillStep(mem, h, AllocationSize(h));
    ZerosSplit(pad, rest);
    AppendAssoc(mem + h, Zeros(pad), Zeros(rest));
  }

  /** The unit appended to memory, regrouped as runPacking writes it: header, padding, payload. */
  lemma {:induction false} UnitWritten(mem: seq<Byte>, values: seq<NonNegLong>, h: seq<Byte>)
    requires |h| * BLOCK_SIZE <= |values|
    ensures mem + h + Zeros(Align8(|h|) - |h|) + Payload(values, h) + Zeros(AllocationSize(h) - Align8(|h|) - RequiredBytes(h))
      == mem + Unit(values, h)
  {
    var pad, payload, rest := Zeros(Align8(|h|) - |h|), Payload(values, h), Zeros(AllocationSize(h) - Align8(|h|) - RequiredBytes(h));
    assert Unit(values, h) == h + pad + payload + rest;
    assert mem + (h + pad + payload + rest) == (mem + h + pad) + payload + rest;
  }

  /**
   * runPacking: reserves the unit's allocation size, copies the header to its start and packs
   * each block after the header's padding. The new arena is the old one followed by the unit,
   * which starts at the returned offset. An allocation size above Integer.MAX_VALUE fails
   * before anything is reserved.
   */
  method RunPacking(alloc: Allocator, values: array<NonNegLong>, header: array<Byte>, requiredBytes: nat)
    returns (result: PackResult)
    requires alloc.Valid() && header != alloc.buf
    requires values.Length % BLOCK_SIZE == 0
    requires header.Length * BLOCK_SIZE <= values.Length
    requires requiredBytes == RequiredBytes(header[..])
    modifies alloc, alloc.buf
    ensures alloc.Valid()
    ensures alloc.buf == old(alloc.buf) || fresh(alloc.buf)
    ensures result.Failed? ==> result.error == AllocationSizeOverflow && AllocationSize(header[..]) > INT_MAX
    ensures result.Failed? ==> alloc.Memory() == old(alloc.Memory())
    ensures result.Packed? ==> AllocationSize(header[..]) <= INT_MAX
    ensures result.Packed? ==> result.offset == |old(alloc.Memory())|
    ensures result.Packed? ==> alloc.Memory() == old(alloc.Memory()) + Unit(values[..], header[..])
  {
    ghost var h := header[..];
    var headerSize := header.Length;
    var alignedHeaderSize := Align8(headerSize);
    var fullSize := alignedHeaderSize + requiredBytes;
    var alignedFullSize := Align8(fullSize);
    if alignedFullSize > INT_MAX {
      return Failed(AllocationSizeOverflow);
    }
    var allocationSize := alignedFullSize;
    assert allocationSize == AllocationSize(h);
    ghost var mem0, vs := alloc.Memory(), values[..];
    ghost var before := mem0 + h + Zeros(Align8(|h|) - |h|);
    ghost var extra := AllocationSize(h) - Align8(|h|) - RequiredBytes(h);

    var adjacencyOffset := alloc.Allocate(allocationSize);
    alloc.WriteBytes(adjacencyOffset, header[..]);
    HeaderWritten(mem0, vs, h);
    PackBlocks(alloc, values, header, adjacencyOffset + alignedHeaderSize, before, extra);
    UnitWritten(mem0, values[..], h);
    return Packed(adjacencyOffset);
  }

  /** The first n header bytes are written. */
  ghost predicate HeaderUpTo(hs: seq<Byte>, h: seq<Byte>, n: nat)
  {
    n <= |hs| == |h| && hs[..n] == h[..n]
  }

  /** Writing the next header byte extends the written prefix by one. */
  lemma {:induction false} HeaderUpToStep(hs: seq<Byte>, h: seq<Byte>, n: nat)
    requires HeaderUpTo(hs, h, n) && n < |h|
    ensures HeaderUpTo(hs[n := h[n]], h, n + 1)
  {
    assert hs[n := h[n]][..n + 1] == hs[..n] + [h[n]];
    assert h[..n + 1] == h[..n] + [h[n]];
  }

  /** A header written up to its length is the whole header. */
  lemma {:induction false} HeaderUpToAll(hs: seq<Byte>, h: seq<Byte>)
    requires HeaderUpTo(hs, h, |h|)
    ensures hs == h
  {
    assert hs == hs[..|h|];
    assert h == h[..|h|];
  }

  /** The offset of block n depends on the header bytes before n only. */
  lemma {:induction false} OffsetOfPrefix(a: seq<Byte>, c: seq<Byte>, n: nat)
    requires n <= |a| && n <= |c| && a[..n] == c[..n]
    ensures BlockOffset(a, n) == BlockOffset(c, n)
  {
    if n > 0 {
      assert a[..n - 1] == a[..n][..n - 1] && c[..n - 1] == c[..n][..n - 1];
      assert a[n - 1] == a[..n][n - 1] && c[n - 1] == c[..n][n - 1];
      OffsetOfPrefix(a, c, n - 1);
    }
  }

  /** Writing header byte n moves the end of block n by that byte's block size. */
  lemma {:induction false} OffsetStep(hs: seq<Byte>, n: nat, x: Byte)
    requires n < |hs|
    ensures BlockOffset(hs[n := x], n + 1) == BlockOffset(hs, n) + BytesNeeded(x as nat)
  {
    assert hs[n := x][..n] == hs[..n];
    OffsetOfPrefix(hs[n := x], hs, n);
  }

  /** The block starting at `offset` spans values[offset..end]; its width is its header byte. */
  lemma {:induction false} HeaderStep(values: array<NonNegLong>, length: nat, b: nat, offset: nat, count: nat, bits: nat)
    requires length <= values.Length && b < BlockCount(length)
    requires offset == b * BLOCK_SIZE && offset + count == BlockEnd(b, length)
    requires bits == BlockWidth(values[offset .. offset + count])
    ensures Header(values[..], length)[b] as nat == bits
  {
    assert values[offset .. offset + count] == values[..][b * BLOCK_SIZE .. BlockEnd(b, length)];
  }

  /**
   * When the header loop stops at block b, the remaining values start at `offset` and end at
   * `length`; b is the last block, and there is a last block exactly when there are values.
   */
  lemma {:induction false} TailBlock(length: nat, b: nat, offset: nat)
    requires (b == 0 || b < BlockCount(length)) && b + 1 >= BlockCount(length) && offset == b * BLOCK_SIZE
    ensures offset <= length
    ensures b < BlockCount(length) <==> length > 0
    ensures length > 0 ==> b + 1 == BlockCount(length) && BlockEnd(b, length) == length
  {
    MulSucc(b, BLOCK_SIZE);
  }

  /** Every block before the tail is a full BLOCK_SIZE values, which all fit in the array. */
  lemma {:induction false} FullBlock(length: nat, n: nat, b: nat)
    requires length <= n && b + 1 < BlockCount(length)
    ensures BlockEnd(b, length) == b * BLOCK_SIZE + BLOCK_SIZE <= n
    ensures (b + 1) * BLOCK_SIZE == b * BLOCK_SIZE + BLOCK_SIZE
  {
    MulSucc(b, BLOCK_SIZE);
  }

  /** BlockCount(length) full blocks fit in an array whose length is a multiple of BLOCK_SIZE. */
  lemma {:induction false} BlocksFit(length: nat, n: nat)
    requires length <= n && n % BLOCK_SIZE == 0
    ensures BlockCount(length) * BLOCK_SIZE <= n
  {
    var r, m := BlockCount(length), n / BLOCK_SIZE;
    assert n == m * BLOCK_SIZE;
    assert (r - 1) * BLOCK_SIZE < m * BLOCK_SIZE;
    assert r - 1 < m;
    MulMonotone(r, m, BLOCK_SIZE);
  }

  /** The unit preparePacking writes for values[..length]. */
  function PackedUnit(values: seq<NonNegLong>, length: nat): seq<Byte>
    requires length <= |values| && |values| % BLOCK_SIZE == 0
  {
    BlocksFit(length, |values|);
    Unit(values, Header(values, length))
  }

  /**
   * One step of preparePacking's header loop: the width of the `count` values from `offset`
   * is added to the byte total and stored as header byte blockIdx. Storing past the end of
   * the header is the out-of-bounds exception; the total is updated before it.
   */
  method RecordBlock(values: array<NonNegLong>, length: nat, header: array<Byte>, blockIdx: nat, offset: nat, count: nat, bytes: nat,
                     ghost h: seq<Byte>)
    returns (newBytes: nat, outOfBounds: bool)
    requires length <= values.Length && header.Length == BlockCount(length) && blockIdx <= header.Length
    requires offset + count <= values.Length
    requires blockIdx < header.Length ==> offset == blockIdx * BLOCK_SIZE && offset + count == BlockEnd(blockIdx, length)
    requires h == Header(values[..], length) && HeaderUpTo(header[..], h, blockIdx)
    requires bytes == BlockOffset(header[..], blockIdx)
    modifies header
    ensures outOfBounds <==> blockIdx == header.Length
    ensures outOfBounds ==> header[..] == old(header[..])
    ensures !outOfBounds ==> HeaderUpTo(header[..], h, blockIdx + 1)
    ensures !outOfBounds ==> newBytes == BlockOffset(header[..], blockIdx + 1)
  {
    var bits := BitsNeeded(values, offset, count);
    newBytes := bytes + BytesNeeded(bits);
    if blockIdx >= header.Length {
      return newBytes, true;
    }
    HeaderStep(values, length, blockIdx, offset, count, bits);
    ghost var hs := header[..];
    header[blockIdx] := bits as Byte;
    assert header[..] == hs[blockIdx := h[blockIdx]];
    HeaderUpToStep(hs, h, blockIdx);
    OffsetStep(hs, blockIdx, h[blockIdx]);
    outOfBounds := false;
  }

  /**
   * The loop of preparePacking over the blocks before the tail block: each holds BLOCK_SIZE
   * values, and its width goes into its header byte. It stops at the last block, or at block 0
   * when there is none.
   */
  method RecordFullBlocks(values: array<NonNegLong>, length: nat, header: array<Byte>, ghost h: seq<Byte>)
    returns (bytes: nat, blockIdx: nat, offset: nat)
    requires length <= values.Length && header.Length == BlockCount(length)
    requires h == Header(values[..], length)
    modifies header
    ensures blockIdx == 0 || blockIdx < header.Length
    ensures blockIdx + 1 >= header.Length && offset == blockIdx * BLOCK_SIZE
    ensures HeaderUpTo(header[..], h, blockIdx)
    ensures bytes == BlockOffset(header[..], blockIdx)
  {
    bytes, offset, blockIdx := 0, 0, 0;
    while blockIdx < header.Length - 1
      invariant blockIdx == 0 || blockIdx < header.Length
      invariant offset == blockIdx * BLOCK_SIZE
      invariant HeaderUpTo(header[..], h, blockIdx)
      invariant bytes == BlockOffset(header[..], blockIdx)
    {
      bytes, blockIdx, offset := RecordFullBlock(values, length, header, blockIdx, offset, bytes, h);
    }
  }

  /** One round of that loop: block blockIdx is full, and its width is recorded. */
  method RecordFullBlock(values: array<NonNegLong>, length: nat, header: array<Byte>, blockIdx: nat, offset: nat, bytes: nat,
                         ghost h: seq<Byte>)
    returns (newBytes: nat, next: nat, nextOffset: nat)
    requires length <= values.Length && header.Length == BlockCount(length)
    requires h == Header(values[..], length)
    requires blockIdx + 1 < header.Length && offset == blockIdx * BLOCK_SIZE
    requires HeaderUpTo(header[..], h, blockIdx) && bytes == BlockOffset(header[..], blockIdx)
    modifies header
    ensures next == blockIdx + 1 && nextOffset == next * BLOCK_SIZE
    ensures HeaderUpTo(header[..], h, next) && newBytes == BlockOffset(header[..], next)
  {
    FullBlock(length, values.Length, blockIdx);
    var outOfBounds;
    newBytes, outOfBounds := RecordBlock(values, length, header, blockIdx, offset, BLOCK_SIZE, bytes, h);
    next := blockIdx + 1;
    nextOffset := offset + BLOCK_SIZE;
  }

  /**
   * The header half of preparePacking: one byte per block holding the width of the block, and
   * the sum of the bytes the blocks need. The blocks before the last hold BLOCK_SIZE values;
   * the tail block holds the rest. With no values there is no block, and the tail block's
   * header write is out of bounds.
   */
  method ComputeHeader(values: array<NonNegLong>, length: nat) returns (header: array<Byte>, bytes: nat, outOfBounds: bool)
    requires length <= values.Length && values.Length % BLOCK_SIZE == 0
    ensures fresh(header)
    ensures outOfBounds <==> length == 0
    ensures !outOfBounds ==> header[..] == Header(values[..], length)
    ensures !outOfBounds ==> bytes == RequiredBytes(header[..]) && header.Length * BLOCK_SIZE <= values.Length
  {
    ghost var vs := values[..];
    ghost var h := Header(vs, length);
    BlocksFit(length, values.Length);
    var blocks := BlockCount(length);
    header := new Byte[blocks];
    var offset, blockIdx;
    bytes, blockIdx, offset := RecordFullBlocks(values, length, header, h);
    // the tail block, which may hold fewer than BLOCK_SIZE values
    TailBlock(length, blockIdx, offset);
    bytes, outOfBounds := RecordBlock(values, length, header, blockIdx, offset, length - offset, bytes, h);
    if !outOfBounds {
      HeaderUpToAll(header[..], h);
    }
    assert values[..] == vs;
  }

  /**
   * preparePacking: builds the header, then hands over to runPacking. The new arena is the
   * old one followed by the unit for values[..length]; with no values the call fails on the
   * header write, and with an allocation size above Integer.MAX_VALUE it fails before anything
   * is reserved.
   */
  method PreparePacking(alloc: Allocator, values: array<NonNegLong>, length: nat) returns (result: PackResult)
    requires alloc.Valid()
    requires length <= values.Length && values.Length % BLOCK_SIZE == 0
    modifies alloc, alloc.buf
    ensures alloc.Valid()
    ensures alloc.buf == old(alloc.buf) || fresh(alloc.buf)
    ensures result == Failed(HeaderIndexOutOfBounds) <==> length == 0
    ensures result == Failed(AllocationSizeOverflow) <==> length > 0 && AllocationSize(Header(values[..], length)) > INT_MAX
    ensures result.Failed? ==> alloc.Memory() == old(alloc.Memory())
    ensures result.Packed? ==> result.offset == |old(alloc.Memory())|
    ensures result.Packed? ==> alloc.Memory() == old(alloc.Memory()) + PackedUnit(values[..], length)
  {
    ghost var vs := values[..];
    var header, bytes, outOfBounds := ComputeHeader(values, length);
    if outOfBounds {
      return Failed(HeaderIndexOutOfBounds);
    }
    result := RunPacking(alloc, values, header, bytes);
    assert values[..] == vs;
  }

  /**
   * deltaCompress: delta-encodes the sorted ids of values[..length] (merging duplicates as
   * `aggregation` says) and packs the deltas. degree is the number of ids kept. A written
   * unit decodes to the aggregated ids themselves.
   */
  method DeltaCompress(alloc: Allocator, values: array<NonNegLong>, length: nat, aggregation: Aggregation)
    returns (result: PackResult, degree: nat)
    requires alloc.Valid()
    requires length <= values.Length && values.Length % BLOCK_SIZE == 0
    requires Sorted(values[..length])
    modifies alloc, alloc.buf, values
    ensures alloc.Valid()
    ensures alloc.buf == old(alloc.buf) || fresh(alloc.buf)
    ensures degree == |Aggregate(old(values[..length]), aggregation)| && degree <= length
    ensures result == Failed(HeaderIndexOutOfBounds) <==> length == 0
    ensures result == Failed(AllocationSizeOverflow) <==> length > 0 && AllocationSize(Header(values[..], degree)) > INT_MAX
    ensures result.Failed? ==> alloc.Memory() == old(alloc.Memory())
    ensures result.Packed? ==> result.offset == |old(alloc.Memory())|
    ensures result.Packed? ==> alloc.Memory() == old(alloc.Memory()) + PackedUnit(values[..], degree)
    ensures result.Packed? ==> Decode(alloc.Memory(), result.offset, degree) == Some(Aggregate(old(values[..length]), aggregation))
  {
    ghost var input := values[..length];
    ghost var mem0 := alloc.Memory();
    degree := length;
    if length > 0 {
      degree := DeltaEncodeSortedValues(values, length, aggregation);
    } else {
      assert input == [];
    }
    assert alloc.Memory() == mem0;
    ghost var vs := values[..];
    assert vs[..degree] == DeltaEncode(Aggregate(input, aggregation));
    result := PreparePacking(alloc, values, degree);
    if result.Packed? {
      BlocksFit(degree, |vs|);
      UnitRoundTrip(vs, degree, mem0, []);
      assert alloc.Memory() == mem0 + Unit(vs, Header(vs, degree)) + [];
      PrefixSumOfDeltaEncode(Aggregate(input, aggregation));
    }
  }

  /**
   * compress: sorts values[..length], then deltaCompress. A written unit decodes to the
   * input's ids in ascending order, duplicates merged unless `aggregation` is NONE; under
   * NONE the degree is the input length.
   */
  method Compress(alloc: Allocator, values: array<NonNegLong>, length: nat, aggregation: Aggregation)
    returns (result: PackResult, degree: nat)
    requires alloc.Valid()
    requires length <= values.Length && values.Length % BLOCK_SIZE == 0
    modifies alloc, alloc.buf, values
    ensures alloc.Valid()
    ensures alloc.buf == old(alloc.buf) || fresh(alloc.buf)
    ensures degree <= length && (aggregation == NONE ==> degree == length)
    ensures result == Failed(HeaderIndexOutOfBounds) <==> length == 0
    ensures result == Failed(AllocationSizeOverflow) <==> length > 0 && AllocationSize(Header(values[..], degree)) > INT_MAX
    ensures result.Failed? ==> alloc.Memory() == old(alloc.Memory())
    ensures result.Packed? ==> result.offset == |old(alloc.Memory())|
    ensures result.Packed? ==> alloc.Memory() == old(alloc.Memory()) + PackedUnit(values[..], degree)
    ensures result.Packed? ==> Decode(alloc.Memory(), result.offset, degree).Some?
    ensures result.Packed? ==> AggregatedFrom(Decode(alloc.Memory(), result.offset, degree).value, old(values[..length]), aggregation)
  {
    ghost var input := values[..length];
    SortRange(values, length);
    ghost var sorted := values[..length];
    AggregateOfSorted(sorted, input, aggregation);
    result, degree := DeltaCompress(alloc, values, length, aggregation);
  }

  /**
   * compressWithProperties, for the ids: applyDeltaEncoding sorts, merges duplicates unless
   * noAggregation and delta-encodes; the deltas are packed and degree is the number of ids
   * kept. A written unit decodes to the input's ids as that aggregation promises them.
   */
  method CompressWithProperties(alloc: Allocator, values: array<NonNegLong>, length: nat, noAggregation: bool)
    returns (result: PackResult, degree: nat)
    requires alloc.Valid()
    requires length <= values.Length && values.Length % BLOCK_SIZE == 0
    modifies alloc, alloc.buf, values
    ensures alloc.Valid()
    ensures alloc.buf == old(alloc.buf) || fresh(alloc.buf)
    ensures degree <= length && (noAggregation ==> degree == length)
    ensures result == Failed(HeaderIndexOutOfBounds) <==> length == 0
    ensures result == Failed(AllocationSizeOverflow) <==> length > 0 && AllocationSize(Header(values[..], degree)) > INT_MAX
    ensures result.Failed? ==> alloc.Memory() == old(alloc.Memory())
    ensures result.Packed? ==> result.offset == |old(alloc.Memory())|
    ensures result.Packed? ==> alloc.Memory() == old(alloc.Memory()) + PackedUnit(values[..], degree)
    ensures result.Packed? ==> Decode(alloc.Memory(), result.offset, degree).Some?
    ensures result.Packed? ==> AggregatedFrom(Decode(alloc.Memory(), result.offset, degree).value, old(values[..length]), IdAggregation(noAggregation))
  {
    ghost var mem0 := alloc.Memory();
    degree := length;
    if length > 0 {
      degree := ApplyDeltaEncoding(values, length, noAggregation);
    }
    assert alloc.Memory() == mem0;
    ghost var vs := values[..];
    result := PreparePacking(alloc, values, degree);
    if result.Packed? {
      BlocksFit(degree, |vs|);
      UnitRoundTrip(vs, degree, mem0, []);
      assert alloc.Memory() == mem0 + Unit(vs, Header(vs, degree)) + [];
    }
  }
}
