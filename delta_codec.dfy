/**
 * Sorting, duplicate aggregation and delta encoding of one node's neighbour ids: the
 * work that Arrays.sort and AdjacencyCompression do for the packer. The helpers of
 * AdjacencyCompression are not part of this model; the methods below carry the contracts
 * AdjacencyPacker relies on, with bodies of this model's own.
 */
module DeltaCodec {
  import opened BitMath

  /** How duplicate targets are merged. For the ids alone every policy but NONE keeps one copy. */
  datatype Aggregation = DEFAULT | NONE | SINGLE | SUM | MIN | MAX | COUNT

  predicate Sorted(s: seq<int>)
  {
    forall i, j :: 0 <= i < j < |s| ==> s[i] <= s[j]
  }

  predicate StrictlySorted(s: seq<int>)
  {
    forall i, j :: 0 <= i < j < |s| ==> s[i] < s[j]
  }

  /**
   * The ids of input[..read] that survive aggregation, in order: every id under NONE, otherwise
   * each id that differs from the one before it (on sorted input, one copy of each id).
   */
  function AggregatePrefix(input: seq<int>, read: nat, aggregation: Aggregation): (r: seq<int>)
    requires 0 < read <= |input|
    ensures 0 < |r| <= read
    ensures r[|r| - 1] == input[read - 1]
  {
    if read == 1 then [input[0]]
    else
      var kept := AggregatePrefix(input, read - 1, aggregation);
      if aggregation == NONE || input[read - 1] != input[read - 2] then kept + [input[read - 1]] else kept
  }

  /** The ids of s that survive aggregation. */
  function Aggregate(s: seq<int>, aggregation: Aggregation): seq<int>
  {
    if s == [] then [] else AggregatePrefix(s, |s|, aggregation)
  }

  /** First value kept, every later value replaced by its difference from its predecessor. */
  function DeltaEncode(s: seq<int>): (r: seq<int>)
    ensures |r| == |s|
  {
    if |s| <= 1 then s
    else DeltaEncode(s[..|s| - 1]) + [s[|s| - 1] - s[|s| - 2]]
  }

  /** Position i of the encoding: the first value itself, later ones their difference from the predecessor. */
  lemma {:induction false} DeltaEncodeAt(s: seq<int>, i: nat)
    requires i < |s|
    ensures DeltaEncode(s)[i] == if i == 0 then s[0] else s[i] - s[i - 1]
  {
    if i < |s| - 1 {
      DeltaEncodeAt(s[..|s| - 1], i);
    }
  }

  /** Running sums: the inverse of DeltaEncode, as the cursor computes it. */
  function PrefixSum(d: seq<int>): (r: seq<int>)
    ensures |r| == |d|
  {
    if d == [] then []
    else
      var p := PrefixSum(d[..|d| - 1]);
      p + [(if p == [] then 0 else p[|p| - 1]) + d[|d| - 1]]
  }

  /** Position i of the running sums: the previous sum plus the i-th delta. */
  lemma {:induction false} PrefixSumAt(d: seq<int>, i: nat)
    requires i < |d|
    ensures PrefixSum(d)[i] == (if i == 0 then 0 else PrefixSum(d)[i - 1]) + d[i]
  {
    if i < |d| - 1 {
      PrefixSumAt(d[..|d| - 1], i);
    }
  }

  /** Decoding the deltas with running sums gives back the values. */
  lemma {:induction false} PrefixSumOfDeltaEncode(s: seq<int>)
    ensures PrefixSum(DeltaEncode(s)) == s
  {
    var p := PrefixSum(DeltaEncode(s));
    forall i | 0 <= i < |s|
      ensures p[i] == s[i]
    {
      PrefixSumOfDeltaEncodeAt(s, i);
    }
  }

  lemma {:induction false} PrefixSumOfDeltaEncodeAt(s: seq<int>, i: nat)
    requires i < |s|
    ensures PrefixSum(DeltaEncode(s))[i] == s[i]
  {
    DeltaEncodeAt(s, i);
    PrefixSumAt(DeltaEncode(s), i);
    if i > 0 {
      PrefixSumOfDeltaEncodeAt(s, i - 1);
    }
  }

  /** Under NONE every id survives. */
  lemma {:induction false} AggregateNone(input: seq<int>, read: nat)
    requires 0 < read <= |input|
    ensures AggregatePrefix(input, read, NONE) == input[..read]
  {
    if read > 1 {
      AggregateNone(input, read - 1);
      assert input[..read] == input[..read - 1] + [input[read - 1]];
    }
  }

  /**
   * Aggregating a sorted input under any policy but NONE leaves it strictly ascending with
   * exactly the ids read so far.
   */
  lemma {:induction false} AggregateMerges(input: seq<int>, read: nat, aggregation: Aggregation)
    requires 0 < read <= |input| && Sorted(input) && aggregation != NONE
    ensures StrictlySorted(AggregatePrefix(input, read, aggregation))
    ensures forall x :: x in AggregatePrefix(input, read, aggregation) <==> x in input[..read]
  {
    if read > 1 {
      AggregateMerges(input, read - 1, aggregation);
      assert input[..read] == input[..read - 1] + [input[read - 1]];
      var kept := AggregatePrefix(input, read - 1, aggregation);
      assert input[read - 2] <= input[read - 1];
      assert input[read - 2] in input[..read - 1];
    }
  }

  /** What the packer promises for the ids it stores: ascending, and the input's ids after aggregation. */
  ghost predicate AggregatedFrom(d: seq<int>, input: seq<int>, aggregation: Aggregation)
  {
    if aggregation == NONE then Sorted(d) && multiset(d) == multiset(input)
    else StrictlySorted(d) && forall x :: x in d <==> x in input
  }

  /** Aggregating a sorting of `input` gives what the packer promises to store for `input`. */
  lemma {:induction false} AggregateOfSorted(sorted: seq<int>, input: seq<int>, aggregation: Aggregation)
    requires Sorted(sorted) && multiset(sorted) == multiset(input)
    ensures AggregatedFrom(Aggregate(sorted, aggregation), input, aggregation)
    ensures |Aggregate(sorted, aggregation)| <= |input|
    ensures aggregation == NONE ==> |Aggregate(sorted, aggregation)| == |input|
  {
    assert |sorted| == |multiset(sorted)| == |input|;
    if sorted != [] {
      assert sorted[..|sorted|] == sorted;
      if aggregation == NONE {
        AggregateNone(sorted, |sorted|);
      } else {
        AggregateMerges(sorted, |sorted|, aggregation);
        forall x ensures x in sorted <==> x in input {
          assert x in sorted <==> x in multiset(sorted);
          assert x in input <==> x in multiset(input);
        }
      }
    }
  }

  /** Arrays.sort(values, 0, length): sorts the prefix in place and leaves the rest alone. */
  method SortRange(values: array<NonNegLong>, length: nat)
    requires length <= values.Length
    modifies values
    ensures Sorted(values[..length])
    ensures multiset(values[..length]) == multiset(old(values[..length]))
    ensures values[length..] == old(values[length..])
  {
    var i := 1;
    while i < length
      invariant 1 <= i
      invariant length > 0 ==> i <= length
      invariant Sorted(values[..if i <= length then i else length])
      invariant multiset(values[..]) == multiset(old(values[..]))
      invariant values[length..] == old(values[length..])
    {
      ghost var before := values[..];
      InsertLast(values, i, length);
      assert values[length..] == before[length..];
      i := i + 1;
    }
    PrefixPermutation(values[..], old(values[..]), length);
  }

  /** Two arrays with the same multiset and the same suffix from n on have the same multiset before n. */
  lemma {:induction false} PrefixPermutation(a: seq<int>, b: seq<int>, n: nat)
    requires n <= |a| && n <= |b| && multiset(a) == multiset(b) && a[n..] == b[n..]
    ensures multiset(a[..n]) == multiset(b[..n])
  {
    assert a == a[..n] + a[n..];
    assert b == b[..n] + b[n..];
    assert multiset(a) == multiset(a[..n]) + multiset(a[n..]);
    assert multiset(b) == multiset(b[..n]) + multiset(b[n..]);
    assert multiset(a[..n]) == multiset(a) - multiset(a[n..]);
    assert multiset(b[..n]) == multiset(b) - multiset(b[n..]);
  }

  /** Moves values[i] left into the sorted run values[..i], so that values[..i + 1] is sorted. */
  method InsertLast(values: array<NonNegLong>, i: nat, length: nat)
    requires i < length <= values.Length
    requires Sorted(values[..i])
    modifies values
    ensures Sorted(values[..i + 1])
    ensures multiset(values[..]) == multiset(old(values[..]))
    ensures forall k :: i < k < values.Length ==> values[k] == old(values[k])
  {
    var j := i;
    SortedAroundStart(values[..], i);
    while j > 0 && values[j - 1] > values[j]
      invariant 0 <= j <= i
      invariant SortedAround(values[..], j, i)
      invariant multiset(values[..]) == multiset(old(values[..]))
      invariant values[i + 1..] == old(values[i + 1..])
    {
      SwapDown(values, j, i);
      j := j - 1;
    }
    SortedAroundDone(values[..], j, i);
  }

  /** One round of that loop: the moving value, at j, changes places with the larger one to its left. */
  method SwapDown(values: array<NonNegLong>, j: nat, i: nat)
    requires 0 < j <= i < values.Length && values[j - 1] > values[j]
    requires SortedAround(values[..], j, i)
    modifies values
    ensures SortedAround(values[..], j - 1, i)
    ensures multiset(values[..]) == multiset(old(values[..]))
    ensures values[i + 1..] == old(values[i + 1..])
  {
    ghost var before := values[..];
    values[j - 1], values[j] := values[j], values[j - 1];
    assert values[..] == before[j - 1 := before[j]][j := before[j - 1]];
    SortedAroundStep(before, j, i);
  }

  /**
   * s[..i + 1] with the value at j being moved: everything else is in order, and that value
   * is no greater than anything to its right.
   */
  ghost predicate SortedAround(s: seq<int>, j: nat, i: nat)
    requires j <= i < |s|
  {
    && (forall p, q :: 0 <= p < q <= i && p != j && q != j ==> s[p] <= s[q])
    && (forall q :: j < q <= i ==> s[j] <= s[q])
  }

  lemma {:induction false} SortedAroundStart(s: seq<int>, i: nat)
    requires i < |s| && Sorted(s[..i])
    ensures SortedAround(s, i, i)
  {
    assert forall p :: 0 <= p < i ==> s[p] == s[..i][p];
  }

  /** Swapping the moving value with a larger left neighbour moves it one place left. */
  lemma {:induction false} SortedAroundStep(s: seq<int>, j: nat, i: nat)
    requires 0 < j <= i < |s| && SortedAround(s, j, i) && s[j - 1] > s[j]
    ensures SortedAround(s[j - 1 := s[j]][j := s[j - 1]], j - 1, i)
    ensures multiset(s[j - 1 := s[j]][j := s[j - 1]]) == multiset(s)
  {
    var t := s[j - 1 := s[j]][j := s[j - 1]];
    assert t[j - 1] == s[j] && t[j] == s[j - 1];
    forall p, q | 0 <= p < q <= i && p != j - 1 && q != j - 1
      ensures t[p] <= t[q]
    {
      if p == j {
        assert s[j - 1] <= s[q];
      } else if q == j {
        assert s[p] <= s[j - 1];
      } else {
        assert t[p] == s[p] && t[q] == s[q];
      }
    }
    forall q | j - 1 < q <= i
      ensures t[j - 1] <= t[q]
    {
      if q > j {
        assert t[q] == s[q];
      }
    }
  }

  lemma {:induction false} SortedAroundDone(s: seq<int>, j: nat, i: nat)
    requires j <= i < |s| && SortedAround(s, j, i)
    requires j == 0 || s[j - 1] <= s[j]
    ensures Sorted(s[..i + 1])
  {
  }

  /**
   * AdjacencyCompression.deltaEncodeSortedValues over values[..length]: keeps the first id,
   * replaces each later one by its difference from its predecessor, drops differences of zero
   * unless `aggregation` is NONE, and returns how many values it kept (the degree).
   * Slots from `length` on are not touched.
   */
  method DeltaEncodeSortedValues(values: array<NonNegLong>, length: nat, aggregation: Aggregation)
    returns (degree: nat)
    requires 0 < length <= values.Length
    requires Sorted(values[..length])
    modifies values
    ensures degree <= length
    ensures values[..degree] == DeltaEncode(Aggregate(old(values[..length]), aggregation))
    ensures values[length..] == old(values[length..])
  {
    ghost var input := values[..length];
    ghost var original := values[..];
    var value := values[0];
    var read, write := 1, 1;
    ghost var encoded := [input[0]];
    while read < length
      invariant 1 <= write <= read <= length
      invariant forall k :: read <= k < length ==> values[k] == input[k]
      invariant values[length..] == original[length..]
      invariant values[..write] == encoded
      invariant encoded == EncodedPrefix(input, read, aggregation)
      invariant value == input[read - 1]
    {
      var next := values[read];
      var delta: int := next as int - value as int;
      value := next;
      if delta != 0 || aggregation == NONE {
        SortedStep(input, read);
        Put(values, write, delta);
        encoded := encoded + [delta];
        write := write + 1;
      }
      read := read + 1;
    }
    EncodedPrefixIsDeltaEncode(input, length, aggregation);
    assert values[length..] == original[length..];
    degree := write;
  }

  /** values[at] := x, stated as what it does to the prefix up to `at` and to every other slot. */
  method Put(values: array<NonNegLong>, at: nat, x: NonNegLong)
    requires at < values.Length
    modifies values
    ensures values[..at + 1] == old(values[..at]) + [x]
    ensures forall k :: 0 <= k < values.Length && k != at ==> values[k] == old(values[k])
    ensures values[at + 1..] == old(values[at + 1..])
  {
    values[at] := x;
  }

  lemma {:induction false} SortedStep(s: seq<int>, i: nat)
    requires 0 < i < |s| && Sorted(s)
    ensures s[i - 1] <= s[i]
  {
  }

  /** What the encoder's loop has written after reading input[..read], one id at a time. */
  function EncodedPrefix(input: seq<int>, read: nat, aggregation: Aggregation): (r: seq<int>)
    requires 0 < read <= |input|
  {
    if read == 1 then [input[0]]
    else
      var prev := EncodedPrefix(input, read - 1, aggregation);
      var delta := input[read - 1] - input[read - 2];
      if delta != 0 || aggregation == NONE then prev + [delta] else prev
  }

  /** The loop computes the delta encoding of the aggregated ids. */
  lemma {:induction false} EncodedPrefixIsDeltaEncode(input: seq<int>, read: nat, aggregation: Aggregation)
    requires 0 < read <= |input|
    ensures EncodedPrefix(input, read, aggregation) == DeltaEncode(AggregatePrefix(input, read, aggregation))
  {
    if read > 1 {
      EncodedPrefixIsDeltaEncode(input, read - 1, aggregation);
      EncodeStep(input, read - 1, aggregation);
    }
  }

  /** One step of the encoder's loop: what reading input[read] adds to the encoded prefix. */
  lemma {:induction false} EncodeStep(input: seq<int>, read: nat, aggregation: Aggregation)
    requires 0 < read < |input|
    ensures aggregation == NONE || input[read] != input[read - 1] ==>
      DeltaEncode(AggregatePrefix(input, read + 1, aggregation))
      == DeltaEncode(AggregatePrefix(input, read, aggregation)) + [input[read] - input[read - 1]]
    ensures aggregation != NONE && input[read] == input[read - 1] ==>
      DeltaEncode(AggregatePrefix(input, read + 1, aggregation))
      == DeltaEncode(AggregatePrefix(input, read, aggregation))
  {
    if aggregation == NONE || input[read] != input[read - 1] {
      DeltaEncodeSnoc(AggregatePrefix(input, read, aggregation), input[read]);
    }
  }

  /** Appending a value appends its difference from the previous last value. */
  lemma {:induction false} DeltaEncodeSnoc(s: seq<int>, x: int)
    requires |s| > 0
    ensures DeltaEncode(s + [x]) == DeltaEncode(s) + [x - s[|s| - 1]]
  {
    var t := s + [x];
    assert t[..|t| - 1] == s;
    assert t[|t| - 1] == x && t[|t| - 2] == s[|s| - 1];
    assert DeltaEncode(t) == DeltaEncode(t[..|t| - 1]) + [t[|t| - 1] - t[|t| - 2]];
  }

  /**
   * The id part of AdjacencyCompression.applyDeltaEncoding: sorts values[..length], then
   * delta-encodes it, merging duplicate ids unless `noAggregation`. The deltas it leaves
   * decode to the input's ids as aggregation promises them. The property columns it reorders
   * and aggregates in lockstep are not part of this model.
   */
  method ApplyDeltaEncoding(values: array<NonNegLong>, length: nat, noAggregation: bool)
    returns (degree: nat)
    requires 0 < length <= values.Length
    modifies values
    ensures 0 < degree <= length
    ensures noAggregation ==> degree == length
    ensures AggregatedFrom(PrefixSum(values[..degree]), old(values[..length]), IdAggregation(noAggregation))
    ensures values[length..] == old(values[length..])
  {
    SortRange(values, length);
    ghost var sorted := values[..length];
    degree := DeltaEncodeSortedValues(values, length, IdAggregation(noAggregation));
    AggregateOfSorted(sorted, old(values[..length]), IdAggregation(noAggregation));
    PrefixSumOfDeltaEncode(Aggregate(sorted, IdAggregation(noAggregation)));
  }

  /** The id aggregation that applyDeltaEncoding applies: NONE exactly when noAggregation is set. */
  function IdAggregation(noAggregation: bool): Aggregation
  {
    if noAggregation then NONE else SUM
  }
}
