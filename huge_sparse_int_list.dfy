/**
 * HugeSparseIntList: a growable, long-indexed list of Java ints kept in pages of PAGE_SIZE
 * slots that are allocated on the first write into their index range. An index whose page
 * was never allocated, or whose slot was never written, reads as the list's default value;
 * a slot holding the default value is indistinguishable from an unwritten one.
 *
 * The list is a class over a page table; Get is the abstract view every method is proved
 * against ("the value at index i"), and the draining iterator is a class of its own that
 * hands the pages out one table slot at a time, clearing each slot it hands out.
 */
module SparseCollections {
  import opened Common

  /** A Java int. */
  type Int32 = x: int | INT_MIN <= x <= INT_MAX

  /** Slots per page: 1 << PAGE_SHIFT. */
  const PAGE_SHIFT: nat := 12
  const PAGE_SIZE: nat := 4096

  /** The page holding an index: index >>> PAGE_SHIFT. */
  function PageIndex(index: nat): nat
  {
    index / PAGE_SIZE
  }

  /** The slot of an index within its page: index & (PAGE_SIZE - 1). */
  function IndexInPage(index: nat): (r: nat)
    ensures r < PAGE_SIZE
  {
    index % PAGE_SIZE
  }

  /** Slot s of page p is the index p * PAGE_SIZE + s, and no other index maps to it. */
  lemma {:induction false} PageSlot(p: nat, s: nat)
    requires s < PAGE_SIZE
    ensures PageIndex(p * PAGE_SIZE + s) == p && IndexInPage(p * PAGE_SIZE + s) == s
    ensures forall index: nat :: PageIndex(index) == p && IndexInPage(index) == s ==> index == p * PAGE_SIZE + s
  {
    var index := p * PAGE_SIZE + s;
    assert index / PAGE_SIZE == p by {
      assert p * PAGE_SIZE <= index < (p + 1) * PAGE_SIZE;
    }
    forall index': nat | PageIndex(index') == p && IndexInPage(index') == s
      ensures index' == p * PAGE_SIZE + s
    {
      assert index' == (index' / PAGE_SIZE) * PAGE_SIZE + index' % PAGE_SIZE;
    }
  }

  /** Indices below n * PAGE_SIZE are exactly those on the first n pages. */
  lemma {:induction false} BelowPages(n: nat, index: nat)
    ensures index < n * PAGE_SIZE <==> PageIndex(index) < n
  {
    var p, s := PageIndex(index), IndexInPage(index);
    assert index == p * PAGE_SIZE + s;
    if p < n {
      assert (p + 1) * PAGE_SIZE <= n * PAGE_SIZE;
    } else {
      assert n * PAGE_SIZE <= p * PAGE_SIZE;
    }
  }

  /** The pages a page table holds. */
  ghost function Allocated(pages: seq<Option<array<Int32>>>): set<array<Int32>>
  {
    set p | 0 <= p < |pages| && pages[p].Some? :: pages[p].value
  }

  /** New, empty table slots hold no page. */
  lemma {:induction false} AllocatedGrow(pages: seq<Option<array<Int32>>>, n: nat)
    ensures Allocated(pages + seq(n, _ => None)) == Allocated(pages)
  {
    var grown := pages + seq(n, _ => None);
    forall a | a in Allocated(grown) ensures a in Allocated(pages) {
      var p :| 0 <= p < |grown| && grown[p].Some? && grown[p].value == a;
      assert p < |pages| && pages[p] == grown[p];
    }
    forall a | a in Allocated(pages) ensures a in Allocated(grown) {
      var p :| 0 <= p < |pages| && pages[p].Some? && pages[p].value == a;
      assert grown[p] == pages[p];
    }
  }

  /** Putting a page into an empty table slot adds exactly that page. */
  lemma {:induction false} AllocatedPut(pages: seq<Option<array<Int32>>>, i: nat, a: array<Int32>)
    requires i < |pages| && pages[i].None?
    ensures Allocated(pages[i := Some(a)]) == Allocated(pages) + {a}
  {
    var put := pages[i := Some(a)];
    forall b | b in Allocated(put) ensures b in Allocated(pages) + {a} {
      var p :| 0 <= p < |put| && put[p].Some? && put[p].value == b;
      if p != i {
        assert pages[p] == put[p];
      }
    }
    forall b | b in Allocated(pages) ensures b in Allocated(put) {
      var p :| 0 <= p < |pages| && pages[p].Some? && pages[p].value == b;
      assert put[p] == pages[p];
    }
    assert put[i].value == a;
  }

  /** Clearing a table slot adds no page. */
  lemma {:induction false} AllocatedClear(pages: seq<Option<array<Int32>>>, i: nat)
    requires i < |pages|
    ensures Allocated(pages[i := None]) <= Allocated(pages)
  {
    var cleared := pages[i := None];
    forall b | b in Allocated(cleared) ensures b in Allocated(pages) {
      var p :| 0 <= p < |cleared| && cleared[p].Some? && cleared[p].value == b;
      assert pages[p] == cleared[p];
    }
  }

  /** The indices that forAll reported. */
  ghost function IndicesOf(visited: seq<(nat, Int32)>): set<nat>
  {
    set k | 0 <= k < |visited| :: visited[k].0
  }

  class HugeSparseIntList {
    /** The value every index holds until it is written. */
    const defaultValue: Int32
    /** The page table: page p holds indices p * PAGE_SIZE up to (p + 1) * PAGE_SIZE. */
    var pages: seq<Option<array<Int32>>>

    /** The allocated pages. */
    ghost function PageSet(): set<array<Int32>>
      reads this
    {
      Allocated(pages)
    }

    /** Every allocated page has PAGE_SIZE slots, and no page sits in two table slots. */
    ghost predicate Valid()
      reads this, PageSet()
    {
      (forall p :: 0 <= p < |pages| && pages[p].Some? ==> pages[p].value.Length == PAGE_SIZE) &&
      (forall p, q :: 0 <= p < q < |pages| && pages[p].Some? && pages[q].Some? ==> pages[p].value != pages[q].value)
    }

    /**
     * of(defaultValue, initialCapacity): a list that reads the default everywhere, with a
     * table of enough (unallocated) pages for initialCapacity values; of(defaultValue) is
     * the same with initialCapacity 0.
     */
    constructor Of(defaultValue: Int32, initialCapacity: nat)
      ensures Valid() && this.defaultValue == defaultValue && PageSet() == {}
      ensures forall index :: Get(index) == defaultValue
      ensures initialCapacity <= Capacity() < initialCapacity + PAGE_SIZE
    {
      this.defaultValue := defaultValue;
      pages := seq(CeilDiv(initialCapacity, PAGE_SIZE), _ => None);
    }

    /** capacity(): the number of indices the current page table covers. */
    function Capacity(): (r: nat)
      reads this
      ensures forall index: nat :: index < r <==> PageIndex(index) < |pages|
    {
      forall index: nat ensures index < |pages| * PAGE_SIZE <==> PageIndex(index) < |pages| {
        BelowPages(|pages|, index);
      }
      |pages| * PAGE_SIZE
    }

    /** get(index): the stored slot, or the default where no page was allocated. */
    function Get(index: nat): (r: Int32)
      requires Valid()
      reads this, PageSet()
      ensures r != defaultValue ==> PageIndex(index) < |pages| && pages[PageIndex(index)].Some?
    {
      var p := PageIndex(index);
      if p < |pages| && pages[p].Some? then pages[p].value[IndexInPage(index)] else defaultValue
    }

    /** contains(index): the page exists and the slot differs from the default. */
    function Contains(index: nat): (r: bool)
      requires Valid()
      reads this, PageSet()
      ensures r <==> Get(index) != defaultValue
    {
      var p := PageIndex(index);
      p < |pages| && pages[p].Some? && pages[p].value[IndexInPage(index)] != defaultValue
    }

    /**
     * The page for pageIndex, allocated (filled with the default) if it is missing; the
     * table grows to pageIndex + 1 slots if it is too short. No index changes its value.
     */
    method PageFor(pageIndex: nat) returns (page: array<Int32>)
      requires Valid()
      modifies this
      ensures Valid()
      ensures pageIndex < |pages| && pages[pageIndex] == Some(page)
      ensures |pages| == if pageIndex < old(|pages|) then old(|pages|) else pageIndex + 1
      ensures PageSet() == old(PageSet()) + {page}
      ensures page !in old(PageSet()) ==> fresh(page)
      ensures forall index :: Get(index) == old(Get(index))
    {
      if pageIndex >= |pages| {
        AllocatedGrow(pages, pageIndex + 1 - |pages|);
        pages := pages + seq(pageIndex + 1 - |pages|, _ => None);
      }
      match pages[pageIndex]
      case Some(p) =>
        page := p;
        assert page in PageSet();
      case None =>
        page := new Int32[PAGE_SIZE](_ => defaultValue);
        AllocatedPut(pages, pageIndex, page);
        pages := pages[pageIndex := Some(page)];
    }

    /** set(index, value): index reads value afterwards and no other index changes. */
    method Set(index: nat, value: Int32)
      requires Valid()
      modifies this, PageSet()
      ensures Valid()
      ensures PageSet() >= old(PageSet()) && fresh(PageSet() - old(PageSet()))
      ensures Get(index) == value
      ensures forall j :: j != index ==> Get(j) == old(Get(j))
      ensures |pages| == if PageIndex(index) < old(|pages|) then old(|pages|) else PageIndex(index) + 1
    {
      var page := PageFor(PageIndex(index));
      page[IndexInPage(index)] := value;
      forall j: nat | j != index ensures Get(j) == old(Get(j)) {
        PageSlot(PageIndex(j), IndexInPage(j));
        PageSlot(PageIndex(index), IndexInPage(index));
      }
    }

    /**
     * setIfAbsent(index, value): writes only where the index still reads the default, and
     * says whether it wrote. No other index changes.
     */
    method SetIfAbsent(index: nat, value: Int32) returns (written: bool)
      requires Valid()
      modifies this, PageSet()
      ensures Valid()
      ensures PageSet() >= old(PageSet()) && fresh(PageSet() - old(PageSet()))
      ensures written <==> old(Get(index)) == defaultValue
      ensures Get(index) == if written then value else old(Get(index))
      ensures forall j :: j != index ==> Get(j) == old(Get(j))
      ensures |pages| == if PageIndex(index) < old(|pages|) then old(|pages|) else PageIndex(index) + 1
    {
      var page := PageFor(PageIndex(index));
      var slot := IndexInPage(index);
      if page[slot] == defaultValue {
        page[slot] := value;
        written := true;
      } else {
        written := false;
      }
      forall j: nat | j != index ensures Get(j) == old(Get(j)) {
        PageSlot(PageIndex(j), IndexInPage(j));
        PageSlot(PageIndex(index), IndexInPage(index));
      }
    }

    /**
     * addTo(index, delta): index reads its old value (the default if it was never written)
     * plus delta, wrapped to a Java int. No other index changes.
     */
    method AddTo(index: nat, delta: Int32)
      requires Valid()
      modifies this, PageSet()
      ensures Valid()
      ensures PageSet() >= old(PageSet()) && fresh(PageSet() - old(PageSet()))
      ensures Get(index) == WrapInt32(old(Get(index)) + delta)
      ensures forall j :: j != index ==> Get(j) == old(Get(j))
      ensures |pages| == if PageIndex(index) < old(|pages|) then old(|pages|) else PageIndex(index) + 1
    {
      var page := PageFor(PageIndex(index));
      var slot := IndexInPage(index);
      page[slot] := WrapInt32(page[slot] + delta);
      forall j: nat | j != index ensures Get(j) == old(Get(j)) {
        PageSlot(PageIndex(j), IndexInPage(j));
        PageSlot(PageIndex(index), IndexInPage(index));
      }
    }

    /**
     * Hands out the page in table slot p, if any, and clears the slot, as the draining
     * iterator does: the page holds what its indices read, and they read the default from
     * now on. Every other index keeps its value.
     */
    method TakePage(p: nat) returns (page: Option<array<Int32>>)
      requires Valid() && p < |pages|
      modifies this
      ensures Valid()
      ensures page == old(pages[p]) && pages == old(pages)[p := None]
      ensures PageSet() <= old(PageSet())
      ensures page.Some? ==> page.value.Length == PAGE_SIZE
      ensures page.Some? ==> forall s :: 0 <= s < PAGE_SIZE ==> page.value[s] == old(Get(p * PAGE_SIZE + s))
      ensures forall index :: Get(index) == if PageIndex(index) == p then defaultValue else old(Get(index))
    {
      ghost var before := pages;
      page := pages[p];
      ghost var contents: seq<Int32> := [];
      if page.Some? {
        contents := page.value[..];
        forall s | 0 <= s < PAGE_SIZE ensures contents[s] == Get(p * PAGE_SIZE + s) {
          PageSlot(p, s);
        }
      }
      AllocatedClear(pages, p);
      pages := pages[p := None];
      if page.Some? {
        assert page.value[..] == contents;
        forall s | 0 <= s < PAGE_SIZE ensures page.value[s] == old(Get(p * PAGE_SIZE + s)) {
          assert page.value[s] == contents[s];
        }
      }
      forall index: nat
        ensures Get(index) == if PageIndex(index) == p then defaultValue else old(Get(index))
      {
        var q := PageIndex(index);
        if q < |before| && q != p && before[q].Some? {
          assert pages[q] == before[q];
        }
      }
    }

    /** The invariant of forAll's scan after the indices below `bound`. */
    ghost predicate Reported(visited: seq<(nat, Int32)>, bound: nat)
      requires Valid()
      reads this, PageSet()
    {
      (forall k :: 0 <= k < |visited| ==> visited[k].0 < bound && Get(visited[k].0) == visited[k].1 != defaultValue) &&
      (forall k, l :: 0 <= k < l < |visited| ==> visited[k].0 < visited[l].0) &&
      (forall index: nat :: index < bound && Contains(index) ==> index in IndicesOf(visited))
    }

    /**
     * forAll(consumer): the (index, value) pairs handed to the consumer, in order. They are
     * exactly the indices that do not read the default, each once, with its value, page by
     * page and slot by slot.
     */
    method ForAll() returns (visited: seq<(nat, Int32)>)
      requires Valid()
      ensures forall k :: 0 <= k < |visited| ==> Get(visited[k].0) == visited[k].1 != defaultValue
      ensures forall k, l :: 0 <= k < l < |visited| ==> visited[k].0 < visited[l].0
      ensures forall index: nat :: Contains(index) ==> index in IndicesOf(visited)
    {
      visited := [];
      var p := 0;
      while p < |pages|
        invariant p <= |pages|
        decreases |pages| - p
        invariant Reported(visited, p * PAGE_SIZE)
      {
        if pages[p].Some? {
          visited := ScanPage(p, visited);
        } else {
          SkipPage(visited, p);
        }
        p := p + 1;
      }
      forall index: nat | Contains(index) ensures index in IndicesOf(visited) {
        BelowPages(|pages|, index);
      }
    }

    /** forAll on one allocated page: reports its slots that do not hold the default, in order. */
    method ScanPage(p: nat, visited: seq<(nat, Int32)>) returns (r: seq<(nat, Int32)>)
      requires Valid() && p < |pages| && pages[p].Some?
      requires Reported(visited, p * PAGE_SIZE)
      ensures Reported(r, (p + 1) * PAGE_SIZE)
    {
      var page := pages[p].value;
      r := visited;
      var s := 0;
      while s < PAGE_SIZE
        invariant s <= PAGE_SIZE
        invariant Reported(r, p * PAGE_SIZE + s)
      {
        PageSlot(p, s);
        if page[s] != defaultValue {
          ReportStep(r, p * PAGE_SIZE + s, page[s]);
          r := r + [(p * PAGE_SIZE + s, page[s])];
        } else {
          assert !Contains(p * PAGE_SIZE + s);
        }
        s := s + 1;
      }
    }

    /** forAll passes over a page that was never allocated: all its indices read the default. */
    lemma {:induction false} SkipPage(visited: seq<(nat, Int32)>, p: nat)
      requires Valid() && p < |pages| && pages[p].None?
      requires Reported(visited, p * PAGE_SIZE)
      ensures Reported(visited, (p + 1) * PAGE_SIZE)
    {
      forall index: nat | index < (p + 1) * PAGE_SIZE && Contains(index)
        ensures index in IndicesOf(visited)
      {
        BelowPages(p, index);
        BelowPages(p + 1, index);
      }
    }

    /** Reporting the next index of the scan, which does not read the default, keeps the invariant. */
    lemma {:induction false} ReportStep(visited: seq<(nat, Int32)>, index: nat, value: Int32)
      requires Valid() && Reported(visited, index) && Get(index) == value != defaultValue
      ensures Reported(visited + [(index, value)], index + 1)
    {
      var r := visited + [(index, value)];
      assert IndicesOf(r) == IndicesOf(visited) + {index} by {
        forall x | x in IndicesOf(r) ensures x in IndicesOf(visited) + {index} {
          var k :| 0 <= k < |r| && r[k].0 == x;
          if k < |visited| {
            assert visited[k] == r[k];
          }
        }
        forall x | x in IndicesOf(visited) ensures x in IndicesOf(r) {
          var k :| 0 <= k < |visited| && visited[k].0 == x;
          assert r[k] == visited[k];
        }
        assert r[|visited|].0 == index;
      }
    }

    /** drainingIterator(): an iterator over this list's page table, starting at page 0. */
    method DrainingIterator() returns (it: PageDrain)
      requires Valid()
      ensures fresh(it) && it.list == this && it.nextPage == 0 && it.Valid()
    {
      it := new PageDrain(this);
    }
  }

  /**
   * The draining iterator: hands out the table's pages in order, each with the index of its
   * first slot, and clears each table slot it hands out. Once it reports that no page is left,
   * the list reads the default everywhere.
   */
  class PageDrain {
    const list: HugeSparseIntList
    var nextPage: nat

    ghost predicate Valid()
      reads this, list, list.PageSet()
    {
      list.Valid() && nextPage <= |list.pages| &&
      forall p :: 0 <= p < nextPage ==> list.pages[p].None?
    }

    constructor (list: HugeSparseIntList)
      requires list.Valid()
      ensures this.list == list && nextPage == 0 && Valid()
    {
      this.list := list;
      nextPage := 0;
    }

    /**
     * next(batch): the next table slot's page (absent where none was allocated) and the
     * index its slot 0 stands for; the table slot is cleared, so its indices read the
     * default from now on, and the handed-out page holds what they read before. When no
     * slot is left it says so, and the list is empty.
     */
    method Next() returns (more: bool, page: Option<array<Int32>>, offset: nat)
      requires Valid()
      modifies this, list
      ensures Valid()
      ensures |list.pages| == old(|list.pages|)
      ensures list.PageSet() <= old(list.PageSet())
      ensures more <==> old(nextPage) < |list.pages|
      ensures !more ==> nextPage == old(nextPage) && list.pages == old(list.pages)
      ensures !more ==> forall index :: list.Get(index) == list.defaultValue
      ensures more ==> nextPage == old(nextPage) + 1 && offset == old(nextPage) * PAGE_SIZE
      ensures more ==> page == old(list.pages[nextPage]) && list.pages == old(list.pages)[old(nextPage) := None]
      ensures more && page.Some? ==> page.value.Length == PAGE_SIZE
      ensures more && page.Some? ==> forall s :: 0 <= s < PAGE_SIZE ==> page.value[s] == old(list.Get(offset + s))
      ensures more ==> forall index :: list.Get(index) == if PageIndex(index) == offset / PAGE_SIZE then list.defaultValue else old(list.Get(index))
    {
      if nextPage >= |list.pages| {
        forall index: nat ensures list.Get(index) == list.defaultValue {
          var p := PageIndex(index);
          assert p < |list.pages| ==> list.pages[p].None?;
        }
        return false, None, 0;
      }
      var p := nextPage;
      offset := p * PAGE_SIZE;
      PageSlot(p, 0);
      nextPage := p + 1;
      page := list.TakePage(p);
      more := true;
    }
  }
}
