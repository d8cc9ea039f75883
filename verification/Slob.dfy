/** The SLOB allocator with its header memory, page list and counters. The page allocator below is a
    parameter: the address it would return, or 0. */
module Slob {
  import opened SlobPages
  import opened SlobHeaders
  import opened SlobState
  import opened SlobSteps
  import opened SlobLists
  import opened Wrappers

  // ---- best fit ----

  ghost predicate Fits(view: seq<Page>, i: nat, k: nat, size: nat) {
    i < |view| && k < |FreeOf(view[i])| && FreeOf(view[i])[k].size >= size
  }

  /** Free block k of page i lies before (n, m) in the order of the search. */
  predicate Seen(i: nat, k: nat, n: nat, m: nat) {
    i < n || (i == n && k < m)
  }

  ghost predicate NoneFits(view: seq<Page>, size: nat, n: nat, m: nat) {
    forall i: nat, k: nat :: Fits(view, i, k, size) ==> !Seen(i, k, n, m)
  }

  /** Of the free blocks before (n, m) that are big enough, (i, k) is the first of the smallest. */
  ghost predicate BestOf(view: seq<Page>, size: nat, n: nat, m: nat, i: nat, k: nat) {
    && Fits(view, i, k, size) && Seen(i, k, n, m)
    && forall i': nat, k': nat :: Fits(view, i', k', size) && Seen(i', k', n, m) ==>
         && FreeOf(view[i])[k].size <= FreeOf(view[i'])[k'].size
         && (Seen(i', k', i, k) ==> FreeOf(view[i])[k].size < FreeOf(view[i'])[k'].size)
  }

  ghost predicate BestFit(view: seq<Page>, size: nat, i: nat, k: nat) {
    BestOf(view, size, |view|, 0, i, k)
  }

  ghost predicate NoFit(view: seq<Page>, size: nat) {
    NoneFits(view, size, |view|, 0)
  }

  const NO_SIZE: nat := 0xFFFF_FFFF

  ghost predicate Progress(view: seq<Page>, size: nat, n: nat, m: nat, best: nat, bestSize: nat, i: nat, k: nat) {
    if best == NULL then bestSize == NO_SIZE && NoneFits(view, size, n, m)
    else BestOf(view, size, n, m, i, k) && best == FreeOf(view[i])[k].addr && bestSize == FreeOf(view[i])[k].size
  }

  lemma ProgressAtCell(view: seq<Page>, size: nat, n: nat, m: nat, best: nat, bestSize: nat, i: nat, k: nat)
    requires n < |view| && m < |FreeOf(view[n])| && Progress(view, size, n, m, best, bestSize, i, k)
    requires 0 < FreeOf(view[n])[m].addr && FreeOf(view[n])[m].size < NO_SIZE
    ensures var c := FreeOf(view[n])[m];
      if c.size >= size && c.size < bestSize then Progress(view, size, n, m + 1, c.addr, c.size, n, m)
      else Progress(view, size, n, m + 1, best, bestSize, i, k)
  {
    hide FreeOf;
    assert forall i', k' :: Seen(i', k', n, m + 1) <==> Seen(i', k', n, m) || (i' == n && k' == m);
  }

  lemma ProgressAtPage(view: seq<Page>, size: nat, n: nat, best: nat, bestSize: nat, i: nat, k: nat)
    requires n < |view| && Progress(view, size, n, |FreeOf(view[n])|, best, bestSize, i, k)
    ensures Progress(view, size, n + 1, 0, best, bestSize, i, k)
  {
    hide FreeOf;
    assert forall i': nat, k': nat :: Fits(view, i', k', size) ==>
      (Seen(i', k', n + 1, 0) <==> Seen(i', k', n, |FreeOf(view[n])|));
  }

  /** A block of exactly the size asked for cannot be beaten. */
  lemma ExactIsBest(view: seq<Page>, size: nat, n: nat, m: nat)
    requires n < |view| && m < |FreeOf(view[n])| && FreeOf(view[n])[m].size == size
    requires BestOf(view, size, n, m + 1, n, m)
    ensures BestFit(view, size, n, m)
  {
    hide FreeOf;
  }

  // ---- facts about single blocks ----

  lemma FreeBlockHeader(mem: Memory, p: Page, k: nat)
    requires PageSound(p) && InMemory(mem, p) && k < |FreeOf(p)|
    ensures FreeOf(p)[k].addr in mem && mem[FreeOf(p)[k].addr].size == FreeOf(p)[k].size
    ensures mem[FreeOf(p)[k].addr].next == AddrAt(FreeOf(p), k + 1)
    ensures 0 < FreeOf(p)[k].addr && FreeOf(p)[k].size < NO_SIZE && InPage(p, FreeOf(p)[k].addr)
    ensures FreeOf(p)[k].addr % ALIGN == 0
  {
    assert CellLinked(mem, FreeOf(p), k);
    PageCells(p, true);
  }

  lemma FreeBlockLinks(mem: Memory, p: Page, pre: seq<Block>, b: Block, post: seq<Block>)
    requires PageSound(p) && InMemory(mem, p) && p.blocks == pre + [b] + post && b.free
    ensures var a := Start(p) + Length(pre);
      && a in mem && mem[a] == Header(b.size, 0, First(Behind(p, pre, b, post, true)), Last(Before(p, pre, true)))
      && mem[a].prev != a && mem[a].next != a
  {
    hide Cells, Length, Total, PageSound, Before, Behind;
    FreeAt(p, pre, b, post);
    PageCells(p, true);
    var l, c, r := Before(p, pre, true), Here(p, pre, b), Behind(p, pre, b, post, true);
    Unlinked(mem, l, c, r);
    DistinctParts(l, [c], r);
    assert [c][0] == c;
  }

  ghost predicate AllSeparated(view: seq<Page>) {
    forall i :: 0 <= i < |view| ==> Separated(view[i].blocks)
  }

  lemma PlacedSeparated(pre: seq<Block>, b: Block, post: seq<Block>, need: nat)
    requires Separated(pre + [b] + post) && b.free && b.size >= need
    ensures Separated(Place(pre, b, post, need))
  {
    SeparatedReplace(pre, b, post, Carved(b, need));
  }

  function NewPage(base: nat): Page {
    Page(base, [Block(SPACE, true)])
  }

  lemma NewPageFacts(base: nat)
    requires base % PAGE_SIZE == 20
    ensures var p := NewPage(base);
      && PageSound(p) && Separated(p.blocks) && FreeOf(p) == [Cell(base + PAGE_HEADER, SPACE)] && LiveOf(p) == []
      && Total(FreeOf(p)) == SPACE && Total(LiveOf(p)) == 0 && First(FreeOf(p)) == base + PAGE_HEADER
  {
    var b, start := Block(SPACE, true), base + PAGE_HEADER;
    CellsAround(start, [], b, [], true);
    CellsAround(start, [], b, [], false);
    assert [] + [b] + [] == [b];
    TotalOf(Cell(base + PAGE_HEADER, SPACE));
  }

  lemma ChainOfOne(mem: Memory, c: Cell)
    requires c.addr in mem && mem[c.addr] == Header(c.size, 0, NULL, NULL)
    ensures CellChain(mem, [c])
  {
    assert CellLinked(mem, [c], 0);
  }

  class SlobAllocator {
    var mem: Memory
    var pmem: PageMemory
    var pages: nat
    var totalPages: nat
    var totalAllocated: nat
    ghost var view: seq<Page>

    ghost predicate Linked()
      reads this
    {
      Consistent(mem, pmem, view) && pages == BaseAt(view, 0)
    }

    ghost predicate Valid()
      reads this
    {
      && Linked() && AllSeparated(view)
      && totalPages == |view| && totalAllocated == LiveBytes(view)
    }

    /** init, given what the page allocator returns for the first page. */
    constructor (given: nat)
      requires given != NULL ==> given % PAGE_SIZE == 20
      ensures Valid() && view == if given == NULL then [] else [NewPage(given)]
    {
      mem, pmem, pages, totalPages, totalAllocated, view := map[], map[], NULL, 0, 0, [];
      new;
      var page := AllocPage(given);
      assert given != NULL ==> [NewPage(given)] + [] == [NewPage(given)];
    }

    /** find_free_block. */
    method FindFreeBlock(size: nat) returns (best: nat, ghost i: nat, ghost k: nat)
      requires Linked()
      ensures best == NULL <==> NoFit(view, size)
      ensures best != NULL ==> BestFit(view, size, i, k) && best == FreeOf(view[i])[k].addr
    {
      hide PageSound, InMemory, FreeOf, PagesLinked, Apart, NoneFits, BestOf, Progress;
      best, i, k := NULL, 0, 0;
      var bestSize: nat := NO_SIZE;
      var page := pages;
      ghost var n: nat := 0;
      StartOfSearch(view, size);
      BasesPositive(mem, view);
      while page != NULL
        invariant n <= |view| && page == BaseAt(view, n)
        invariant Progress(view, size, n, 0, best, bestSize, i, k)
        decreases |view| - n
      {
        PageHeaderAt(pmem, view, n);
        var block := pmem[page].freeList;
        ghost var m: nat := 0;
        while block != NULL
          invariant m <= |FreeOf(view[n])| && block == AddrAt(FreeOf(view[n]), m)
          invariant Progress(view, size, n, m, best, bestSize, i, k)
          decreases |FreeOf(view[n])| - m
        {
          FreeBlockHeader(mem, view[n], m);
          ProgressAtCell(view, size, n, m, best, bestSize, i, k);
          if mem[block].size >= size && mem[block].size < bestSize {
            best, bestSize, i, k := block, mem[block].size, n, m;
            if bestSize == size {
              ProgressIsBest(view, size, n, m + 1, best, bestSize, i, k);
              ExactIsBest(view, size, n, m);
              FoundIsNotNone(view, size, n, m);
              return;
            }
          }
          block := mem[block].next;
          m := m + 1;
        }
        NoMoreCells(mem, view[n], m);
        ProgressAtPage(view, size, n, best, bestSize, i, k);
        page := pmem[page].next;
        n := n + 1;
      }
      assert n == |view|;
      if best != NULL {
        ProgressIsBest(view, size, n, 0, best, bestSize, i, k);
        FoundIsNotNone(view, size, i, k);
      } else {
        ProgressIsNone(view, size, n, 0, best, bestSize, i, k);
      }
    }

    /** The loop over the pages in alloc and free: the page that holds an address. */
    method FindPage(a: nat) returns (page: nat, ghost i: nat)
      requires Linked()
      ensures page == NULL ==> forall j :: 0 <= j < |view| ==> !InPage(view[j], a)
      ensures page != NULL ==> i < |view| && page == view[i].base && InPage(view[i], a)
    {
      hide PageSound, InMemory, FreeOf, PagesLinked, Apart;
      page, i := pages, 0;
      BasesPositive(mem, view);
      while page != NULL && !(page <= a < page + PAGE_SIZE)
        invariant i <= |view| && page == BaseAt(view, i)
        invariant forall j :: 0 <= j < i ==> !InPage(view[j], a)
        decreases |view| - i
      {
        PageHeaderAt(pmem, view, i);
        page := pmem[page].next;
        i := i + 1;
      }
    }

    /** split_block. */
    method SplitBlock(block: nat, size: nat, ghost i: nat, ghost pre: seq<Block>, ghost b: Block, ghost post: seq<Block>)
      requires Linked() && i < |view| && view[i].blocks == pre + [b] + post && b.free
      requires block == Start(view[i]) + Length(pre) && size >= MIN_BLOCK && size % ALIGN == 0
      requires b.size <= size + BLOCK_HEADER || Splits(b, size)
      modifies `mem, `view
      ensures Linked()
      ensures view == old(view)[i := if Splits(b, size) then With(old(view)[i], pre, Halves(b, size), post)
                                     else old(view)[i]]
      ensures LiveBytes(view) == LiveBytes(old(view))
    {
      hide Consistent, PageSound, InMemory, Cells, Length, Total, OnlyIn;
      PageOf(mem, pmem, view, i);
      FreeBlockLinks(mem, view[i], pre, b, post);
      if mem[block].size <= size + BLOCK_HEADER {
        assert view == view[i := view[i]];
        return;
      }
      ghost var q := With(view[i], pre, Halves(b, size), post);
      SplitStep(mem, view[i], pre, b, post, size);
      SplitSound(view[i], pre, b, post, size);
      SplitCells(view[i], pre, b, post, size);
      PageReplaced(mem, pmem, view, i, SplitMem(mem, block, size), q);
      SameHeader(pmem, q);
      var rest := block + size;
      var next := mem[block].next;
      mem := mem[rest := Header(mem[block].size - size, 0, next, block)];
      if next != NULL {
        mem := mem[next := mem[next].(prev := rest)];
      }
      mem := mem[block := mem[block].(next := rest)];
      mem := mem[block := mem[block].(size := size)];
      assert mem == SplitMem(old(mem), block, size);
      LiveBytesAt(view, i, q);
      view := view[i := q];
      assert Consistent(mem, pmem, view);
      assert BaseAt(view, 0) == BaseAt(old(view), 0);
    }

    /** remove_free_block. */
    method RemoveFreeBlock(page: nat, block: nat)
      requires page in pmem && block in mem && mem[block].prev != block && mem[block].next != block
      requires (mem[block].prev != NULL ==> mem[block].prev in mem) && (mem[block].next != NULL ==> mem[block].next in mem)
      modifies `mem, `pmem
      ensures pmem == old(pmem)[page := old(pmem)[page].(
                freeList := if old(pmem)[page].freeList == block then old(mem)[block].next else old(pmem)[page].freeList)]
      ensures mem == UnlinkMem(old(mem), old(mem)[block].prev, old(mem)[block].next)[
                block := old(mem)[block].(next := NULL, prev := NULL)]
    {
      if pmem[page].freeList == block {
        pmem := pmem[page := pmem[page].(freeList := mem[block].next)];
      }
      if mem[block].prev != NULL {
        mem := mem[mem[block].prev := mem[mem[block].prev].(next := mem[block].next)];
      }
      if mem[block].next != NULL {
        mem := mem[mem[block].next := mem[mem[block].next].(prev := mem[block].prev)];
      }
      mem := mem[block := mem[block].(next := NULL, prev := NULL)];
    }

    /** alloc_page, given the address that the page allocator returns, 0 when it has no memory. */
    method AllocPage(given: nat) returns (page: nat)
      requires Valid()
      requires given != NULL ==> given % PAGE_SIZE == 20 && forall i :: 0 <= i < |view| ==> view[i].base != given
      modifies this
      ensures Valid() && page == given
      ensures view == if given == NULL then old(view) else [NewPage(given)] + old(view)
    {
      hide PageSound, InMemory, Cells, Length, Total, OnlyIn, PagesLinked;
      if given == NULL {
        return NULL;
      }
      page := given;
      ghost var m, pm, p := mem, pmem, NewPage(given);
      NewPageFacts(given);
      LinkedBases(pm, view);
      BasesPositive(m, view);
      pmem := pmem[page := PageHeader(PAGE_SIZE - PAGE_HEADER, NULL, pages, NULL)];
      if pages != NULL {
        pmem := pmem[pages := pmem[pages].(prev := page)];
      }
      pages := page;
      var initial := page + PAGE_HEADER;
      mem := mem[initial := Header(pmem[page].freeSize, 0, NULL, NULL)];
      pmem := pmem[page := pmem[page].(freeList := initial)];
      totalPages := totalPages + 1;
      NewPageInMemory(m, mem, p);
      PagePushed(m, pm, view, mem, pmem, p);
      LiveBytesConcat([p], view);
      OnePage(p);
      view := [p] + view;
    }

    /** free_page. */
    method FreePage(page: nat, ghost i: nat)
      requires Valid() && i < |view| && page == view[i].base && LiveOf(view[i]) == []
      modifies this
      ensures Valid() && view == Without(old(view), i) && mem == old(mem)
    {
      hide PageSound, InMemory, Cells, Length, Total, OnlyIn, PagesLinked, Apart, Bridged;
      ghost var pm := pmem;
      LinkedBases(pmem, view);
      PageHeaderAt(pmem, view, i);
      BasesPositive(mem, view);
      PageDropped(mem, pmem, view, i);
      LiveBytesAt(view, i, view[i]);
      TotalOfNone();
      BridgeSelf(pmem, view, i);
      if pmem[page].prev != NULL {
        pmem := pmem[pmem[page].prev := pmem[pmem[page].prev].(next := pmem[page].next)];
      } else {
        pages := pmem[page].next;
      }
      if pmem[page].next != NULL {
        pmem := pmem[pmem[page].next := pmem[pmem[page].next].(prev := pmem[page].prev)];
      }
      totalPages := totalPages - 1;
      BridgedIs(pm, pm[page].prev, pm[page].next);
      WithoutIs(view, i);
      view := Without(view, i);
    }

    /** alloc splits the block only when the rest is worth a block of its own. */
    method SplitForUse(block: nat, need: nat, ghost i: nat, ghost pre: seq<Block>, ghost b: Block, ghost post: seq<Block>)
        returns (ghost b': Block, ghost post': seq<Block>)
      requires Linked() && i < |view| && view[i].blocks == pre + [b] + post && b.free
      requires block == Start(view[i]) + Length(pre) && b.size >= need >= MIN_BLOCK && need % ALIGN == 0
      modifies `mem, `view
      ensures Linked() && b'.free && LiveBytes(view) == LiveBytes(old(view))
      ensures view == old(view)[i := Page(old(view)[i].base, pre + [b'] + post')]
      ensures pre + [Block(b'.size, false)] + post' == Place(pre, b, post, need)
    {
      hide Consistent, PageSound, InMemory, Cells, Length, Total, OnlyIn, LiveBytes;
      PageOf(mem, pmem, view, i);
      FreeBlockLinks(mem, view[i], pre, b, post);
      b', post' := b, post;
      assert view == view[i := Page(view[i].base, pre + [b] + post)];
      if mem[block].size > need + BLOCK_HEADER + MIN_ALLOC {
        SplitBlock(block, need, i, pre, b, post);
        b', post' := Halves(b, need)[0], [Halves(b, need)[1]] + post;
        assert pre + Halves(b, need) + post == pre + [b'] + post';
      }
      assert pre + [Block(b'.size, false)] + post' == pre + Carved(b, need) + post;
    }

    /** alloc takes the block off the free list of its page and marks it. */
    method MarkBlock(block: nat, ghost i: nat, ghost pre: seq<Block>, ghost b: Block, ghost post: seq<Block>)
      requires Linked() && i < |view| && view[i].blocks == pre + [b] + post && b.free
      requires block == Start(view[i]) + Length(pre)
      modifies this
      ensures Linked() && pages == old(pages) && totalPages == old(totalPages)
      ensures view == old(view)[i := With(old(view)[i], pre, [Block(b.size, false)], post)]
      ensures totalAllocated == old(totalAllocated) + b.size
      ensures LiveBytes(view) == LiveBytes(old(view)) + b.size
      ensures block in mem && mem[block].magic == SLOB_MAGIC
    {
      hide Consistent, PageSound, InMemory, Cells, Length, Total, OnlyIn, Before, Behind, FreeOf, LiveOf, LiveBytes, UnlinkMem;
      PageOf(mem, pmem, view, i);
      FreeBlockLinks(mem, view[i], pre, b, post);
      BlockInPage(view[i], pre, b, post);
      ghost var q := With(view[i], pre, [Block(b.size, false)], post);
      TakeStep(mem, view[i], pre, b, post);
      TakeMemIs(mem, block);
      PageReplaced(mem, pmem, view, i, TakeMem(mem, block), q);
      TakenBytes(view[i], pre, b, post);
      LiveBytesAt(view, i, q);
      var page, j := FindPage(block);
      OnePageHolds(mem, pmem, view, i, if page == NULL then i else j, block);
      ghost var pm, size := pmem, mem[block].size;
      if page != NULL {
        RemoveFreeBlock(page, block);
        pmem := pmem[page := pmem[page].(freeSize := pmem[page].freeSize - mem[block].size)];
      }
      mem := mem[block := mem[block].(magic := SLOB_MAGIC)];
      totalAllocated := totalAllocated + mem[block].size;
      assert mem == TakeMem(old(mem), block);
      assert pmem == PageUpdate(pm, page, Total(FreeOf(q)), First(FreeOf(q)));
      view := view[i := q];
      assert BaseAt(view, 0) == BaseAt(old(view), 0);
    }

    /** The search of alloc, with a second try on a new page. */
    method FindOrGrow(need: nat, given: nat) returns (block: nat, ghost i: nat, ghost k: nat)
      requires Valid() && need <= SPACE
      requires given != NULL ==> given % PAGE_SIZE == 20 && forall i :: 0 <= i < |view| ==> view[i].base != given
      modifies this
      ensures Valid()
      ensures block == NULL <==> NoFit(old(view), need) && given == NULL
      ensures block == NULL ==> view == old(view)
      ensures block != NULL ==>
        && view == Room(old(view), given, need) && BestFit(view, need, i, k)
        && i < |view| && PageSound(view[i]) && InMemory(mem, view[i])
        && k < |FreeOf(view[i])| && FreeOf(view[i])[k].size >= need
        && block == FreeOf(view[i])[k].addr && block % ALIGN == 0
    {
      hide Consistent, PageSound, InMemory, Cells, Length, Total, NoFit, BestFit, NewPage, LiveBytes;
      block, i, k := FindFreeBlock(need);
      if block == NULL {
        var newPage := AllocPage(given);
        if newPage == NULL {
          return NULL, i, k;
        }
        block, i, k := FindFreeBlock(need);
        NewPageFits(view, given, need);
        if block == NULL {
          return NULL, i, k;
        }
      }
      FoundIsNotNone(view, need, i, k);
      BestFitsHere(view, need, i, k);
      PageOf(mem, pmem, view, i);
      FreeBlockHeader(mem, view[i], k);
    }

    /** alloc. `given` is what the page allocator returns if it is asked for a page. The ghost results name
        the block that was taken: block k of the free list of page i. */
    method Alloc(size: nat, given: nat)
        returns (ptr: nat, ghost i: nat, ghost k: nat, ghost pre: seq<Block>, ghost b: Block, ghost post: seq<Block>)
      requires Valid()
      requires given != NULL ==> given % PAGE_SIZE == 20 && forall i :: 0 <= i < |view| ==> view[i].base != given
      modifies this
      ensures Valid()
      ensures ptr == NULL <==> size == 0 || size > MAX_ALLOC || (NoFit(old(view), Need(size)) && given == NULL)
      ensures ptr == NULL ==> view == old(view)
      ensures ptr != NULL ==>
        var w := Room(old(view), given, Need(size));
        && Chosen(w, Need(size), i, k, pre, b, post)
        && ptr == Start(w[i]) + Length(pre) + BLOCK_HEADER && ptr % ALIGN == 0
        && view == w[i := Page(w[i].base, Place(pre, b, post, Need(size)))]
      ensures ptr != NULL ==>
        && i < |view| && view[i].blocks == Cut(pre, b, post, size)
        && if NoFit(old(view), Need(size)) then
             i == 0 && view[1..] == old(view) && view[0].base == given && pre == [] && b.size == 4068 && post == []
           else
             && |view| == |old(view)| && view[i].base == old(view)[i].base && old(view)[i].blocks == pre + [b] + post
             && forall j :: 0 <= j < |view| && j != i ==> view[j] == old(view)[j]
    {
      hide Consistent, PageSound, InMemory, Cells, Length, Total, NoFit, BestFit, NewPage, Place, LiveBytes, Room, Cut;
      i, k, pre, b, post := 0, 0, [], Block(0, false), [];
      if size == 0 || size > MAX_ALLOC {
        return NULL, i, k, pre, b, post;
      }
      var aligned := (size + ALIGN - 1) / ALIGN * ALIGN;
      if aligned < MIN_ALLOC {
        aligned := MIN_ALLOC;
      }
      aligned := aligned + BLOCK_HEADER;
      assert aligned == Need(size);
      var block;
      block, i, k := FindOrGrow(aligned, given);
      if block == NULL {
        return NULL, i, k, pre, b, post;
      }
      ghost var w := view;
      pre, b, post := CellBlock(Start(view[i]), view[i].blocks, true, k);
      assert Chosen(w, aligned, i, k, pre, b, post);
      RoomIs(old(view), given, size, i, k, pre, b, post);
      ghost var b', post' := SplitForUse(block, aligned, i, pre, b, post);
      MarkBlock(block, i, pre, b', post');
      PlacedSeparated(pre, b, post, aligned);
      assert view == w[i := Page(w[i].base, Place(pre, b, post, aligned))];
      ptr := block + BLOCK_HEADER;
    }

    /** The loop of add_free_block: the last free block before a given one. */
    method LastBefore(head: nat, block: nat, ghost l: seq<Cell>, ghost r: seq<Cell>) returns (current: nat)
      requires CellChain(mem, l + r) && DistinctCells(l + r) && l != [] && head == First(l)
      requires forall i :: 0 <= i < |l| ==> l[i].addr < block
      requires forall i :: 0 <= i < |r| ==> block < r[i].addr
      ensures current == Last(l) && current != NULL && current in mem && mem[current].next == First(r)
    {
      hide CellChain, DistinctCells;
      current := head;
      ghost var n: nat := 0;
      ListAt(mem, l, r, n);
      while mem[current].next != NULL && mem[current].next < block
        invariant n < |l| && current == l[n].addr && current in mem
        decreases |l| - n
      {
        ListAt(mem, l, r, n);
        current := mem[current].next;
        n := n + 1;
      }
      ListAt(mem, l, r, n);
    }

    /** add_free_block: the walk along the free list finds the place between l and r. */
    method AddFreeBlock(page: nat, block: nat, ghost l: seq<Cell>, ghost r: seq<Cell>)
      requires page in pmem && pmem[page].freeList == FirstOf(l, r) && block in mem
      requires CellChain(mem, l + r) && DistinctCells(l + r)
      requires forall i :: 0 <= i < |l| ==> l[i].addr < block
      requires forall i :: 0 <= i < |r| ==> block < r[i].addr
      modifies `mem, `pmem
      ensures (Last(l) != NULL ==> Last(l) in old(mem)) && (First(r) != NULL ==> First(r) in old(mem))
      ensures mem == InsertMem(old(mem), block, Last(l), First(r))
      ensures pmem == old(pmem)[page := old(pmem)[page].(freeList := if l == [] then block else First(l))]
    {
      hide CellChain, DistinctCells;
      ghost var m0, pm0 := mem, pmem;
      ListFacts(mem, l, r);
      if pmem[page].freeList == NULL {
        pmem := pmem[page := pmem[page].(freeList := block)];
        mem := mem[block := mem[block].(next := NULL)];
        mem := mem[block := mem[block].(prev := NULL)];
        assert l == [] && r == [];
        return;
      }
      if block < pmem[page].freeList {
        var head := pmem[page].freeList;
        assert l == [];
        mem := mem[block := mem[block].(next := head)];
        mem := mem[block := mem[block].(prev := NULL)];
        mem := mem[head := mem[head].(prev := block)];
        pmem := pmem[page := pmem[page].(freeList := block)];
        assert mem == InsertMem(m0, block, NULL, head);
        return;
      }
      var current := LastBefore(pmem[page].freeList, block, l, r);
      var next := mem[current].next;
      mem := mem[block := mem[block].(next := next)];
      mem := mem[block := mem[block].(prev := current)];
      assert mem == m0[block := m0[block].(next := next, prev := current)];
      if next != NULL {
        mem := mem[next := mem[next].(prev := block)];
      }
      assert mem == SetPrev(m0[block := m0[block].(next := next, prev := current)], next, block);
      mem := mem[current := mem[current].(next := block)];
      assert mem == InsertMem(m0, block, current, next);
      assert pm0[page].(freeList := First(l)) == pm0[page];
    }

    /** free unmarks the block and puts it back on the free list of its page. */
    method GiveBlock(block: nat, page: nat, ghost i: nat, ghost pre: seq<Block>, ghost b: Block, ghost post: seq<Block>)
      requires Linked() && i < |view| && view[i].blocks == pre + [b] + post && !b.free
      requires block == Start(view[i]) + Length(pre) && page == view[i].base
      requires totalAllocated >= b.size
      modifies `mem, `pmem, `view, `totalAllocated
      ensures Linked()
      ensures view == old(view)[i := With(old(view)[i], pre, [Block(b.size, true)], post)]
      ensures totalAllocated == old(totalAllocated) - b.size
      ensures LiveBytes(view) == LiveBytes(old(view)) - b.size
      ensures block in mem && mem[block].magic == 0
    {
      hide Consistent, PageSound, InMemory, Cells, Length, Total, OnlyIn, Before, Behind, FreeOf, LiveOf, LiveBytes, CellChain, InsertMem,
           DistinctCells;
      PageOf(mem, pmem, view, i);
      ghost var p := view[i];
      ghost var l, r := Before(p, pre, true), Behind(p, pre, b, post, true);
      ghost var q := With(p, pre, [Block(b.size, true)], post);
      GivenList(mem, p, pre, b, post);
      GiveStep(mem, p, pre, b, post);
      GiveMagic(mem, block, Last(l), First(r));
      PageReplaced(mem, pmem, view, i, GiveMem(mem, block, Last(l), First(r)), q);
      GivenBytes(p, pre, b, post);
      LiveBytesAt(view, i, q);
      ghost var m, pm, size := mem, pmem, mem[block].size;
      mem := mem[block := mem[block].(magic := 0)];
      totalAllocated := totalAllocated - mem[block].size;
      pmem := pmem[page := pmem[page].(freeSize := pmem[page].freeSize + mem[block].size)];
      AddFreeBlock(page, block, l, r);
      assert mem == GiveMem(m, block, Last(l), First(r));
      assert pmem == PageUpdate(pm, page, Total(FreeOf(q)), First(FreeOf(q)));
      view := view[i := q];
      assert BaseAt(view, 0) == BaseAt(old(view), 0);
    }

    /** The body of merge_free_blocks: a free block swallows the free block that touches it. */
    method JoinOnce(current: nat, ghost i: nat, ghost pre: seq<Block>, ghost b: Block, ghost d: Block, ghost rest: seq<Block>)
      requires Linked() && i < |view| && view[i].blocks == pre + [b, d] + rest && b.free && d.free
      requires current == Start(view[i]) + Length(pre)
      modifies `mem, `view
      ensures Linked() && current in mem
      ensures view == old(view)[i := Page(old(view)[i].base, pre + [Block(b.size + d.size, true)] + rest)]
      ensures LiveBytes(view) == LiveBytes(old(view)) && MagicKept(mem, old(mem))
    {
      hide Consistent, PageSound, InMemory, Cells, Length, Total, OnlyIn, FreeOf, LiveOf, LiveBytes;
      PageOf(mem, pmem, view, i);
      ghost var q := With(view[i], pre, [Block(b.size + d.size, true)], rest);
      JoinStep(mem, view[i], pre, b, d, rest);
      JoinLinks(mem, view[i], pre, b, d, rest);
      var next := mem[current].next;
      PageReplaced(mem, pmem, view, i, JoinMem(mem, current, next), q);
      SameHeader(pmem, q);
      LiveBytesAt(view, i, q);
      ghost var m := mem;
      mem := mem[current := mem[current].(size := mem[current].size + mem[next].size)];
      mem := mem[current := mem[current].(next := mem[next].next)];
      if mem[next].next != NULL {
        mem := mem[mem[next].next := mem[mem[next].next].(prev := current)];
      }
      assert mem == JoinMem(m, current, next);
      view := view[i := q];
      assert BaseAt(view, 0) == BaseAt(old(view), 0);
    }

    /** merge_free_blocks: one walk along the free list joins every run of touching free blocks. */
    method MergeFreeBlocks(page: nat, ghost i: nat)
      requires Linked() && i < |view| && page == view[i].base
      modifies `mem, `view
      ensures Linked()
      ensures view == old(view)[i := Page(page, Merge(old(view)[i].blocks))]
      ensures LiveBytes(view) == LiveBytes(old(view)) && MagicKept(mem, old(mem))
    {
      hide Consistent, PageSound, InMemory, Cells, Length, Total, OnlyIn, Before, Behind, FreeOf, LiveOf, LiveBytes, CellChain, Merge, NoneFree, With;
      ghost var orig := view[i].blocks;
      PageOf(mem, pmem, view, i);
      HeaderOf(mem, pmem, view, i);
      var current := pmem[page].freeList;
      if current == NULL {
        MergeNothing(mem, view[i]);
        assert view == view[i := Page(page, view[i].blocks)];
        return;
      }
      ghost var pre, b, post := MergeStart(mem, view[i]);
      assert view == view[i := Page(page, pre + [b] + post)];
      while mem[current].next != NULL
        invariant Linked() && i < |view| && view == old(view)[i := Page(page, pre + [b] + post)]
        invariant b.free && current == Start(view[i]) + Length(pre) && current in mem
        invariant Merge(orig) == pre + Merge([b] + post)
        invariant LiveBytes(view) == LiveBytes(old(view)) && MagicKept(mem, old(mem))
        decreases |post|
      {
        PageOf(mem, pmem, view, i);
        var next := mem[current].next;
        ghost var mid, d, rest := MergeNext(mem, view[i], pre, b, post);
        if current + mem[current].size == next {
          assert mid == [];
          assert pre + [b] + post == pre + [b, d] + rest;
          JoinOnce(current, i, pre, b, d, rest);
          assert view == old(view)[i := Page(page, pre + [Block(b.size + d.size, true)] + rest)];
          MergeStep(b, d, rest);
          assert [b, d] + rest == [b] + post;
          b, post := Block(b.size + d.size, true), rest;
        } else {
          assert mid != [];
          MergeApart(b, mid, [d] + rest);
          assert [b] + post == [b] + mid + ([d] + rest);
          assert pre + ([b] + mid + Merge([d] + rest)) == (pre + [b] + mid) + Merge([d] + rest);
          assert pre + [b] + post == (pre + [b] + mid) + [d] + rest;
          current := next;
          pre, b, post := pre + [b] + mid, d, rest;
        }
      }
      PageOf(mem, pmem, view, i);
      MergeEnd(mem, view[i], pre, b, post);
      assert pre + ([b] + post) == pre + [b] + post;
    }

    /** defragment: pages are already merged, so it changes no block. */
    method Defragment()
      requires Valid()
      modifies `mem, `view
      ensures Valid() && view == old(view) && MagicKept(mem, old(mem))
    {
      hide Consistent, AllSeparated, MagicKept, Merge, LiveBytes;
      var page := pages;
      ghost var n: nat := 0;
      ghost var v, m := view, mem;
      MagicSelf(mem);
      while page != NULL
        invariant Valid() && view == v && n <= |v| && page == BaseAt(v, n) && MagicKept(mem, m)
        decreases |v| - n
      {
        HeaderOf(mem, pmem, view, n);
        SeparatedPage(view, n);
        MergeIsIdle(view[n].blocks);
        ghost var m1 := mem;
        MergeFreeBlocks(page, n);
        assert v[n := Page(page, v[n].blocks)] == v;
        MagicChain(m, m1, mem);
        page := pmem[page].next;
        n := n + 1;
      }
    }

    /** free. The page is given back when all of it is one free block and it is not the only page; the
        result is the address given back, or 0. `defragment` is what should_defragment answers. */
    method Free(ptr: nat, defragment: bool, ghost i: nat, ghost pre: seq<Block>, ghost b: Block, ghost post: seq<Block>)
        returns (released: nat)
      requires Valid()
      requires || ptr == NULL || HandedOut(view, ptr, i, pre, b, post)
               || (ptr >= BLOCK_HEADER && ptr - BLOCK_HEADER in mem && mem[ptr - BLOCK_HEADER].magic != SLOB_MAGIC)
      modifies this
      ensures Valid()
      ensures ptr == NULL || (ptr >= BLOCK_HEADER && ptr - BLOCK_HEADER in old(mem)
                              && old(mem)[ptr - BLOCK_HEADER].magic != SLOB_MAGIC) ==>
        view == old(view) && released == NULL
      ensures ptr != NULL && HandedOut(old(view), ptr, i, pre, b, post) ==>
        var q := Page(old(view)[i].base, Freed(pre, b, post));
        if q == NewPage(q.base) && |old(view)| > 1 then released == q.base && view == Without(old(view), i)
        else released == NULL && view == old(view)[i := q]
      ensures ptr != NULL ==> ptr - BLOCK_HEADER in mem && mem[ptr - BLOCK_HEADER].magic != SLOB_MAGIC
    {
      hide Consistent, AllSeparated, MagicKept, Merge, Length, LiveBytes, PageSound, InMemory, FreeOf, LiveOf;
      if ptr == NULL {
        return NULL;
      }
      if HandedOut(view, ptr, i, pre, b, post) { HandedOutMarked(mem, pmem, view, ptr, i, pre, b, post); }
      var block := ptr - BLOCK_HEADER;
      if mem[block].magic != SLOB_MAGIC {
        return NULL;
      }
      var page, j := FindPage(block);
      if page == NULL {
        return NULL;
      }
      OnePageHolds(mem, pmem, view, i, j, block);
      ghost var v, c := view, Block(b.size, true);
      GiveBlock(block, page, i, pre, b, post);
      ghost var m := mem;
      MergeFreeBlocks(page, i);
      ghost var q := Page(page, Freed(pre, b, post));
      assert view == v[i := q];
      MagicAt(m, mem, block);
      FreedPage(mem, pmem, v, view, i, pre, b, post);
      released := NULL;
      if pmem[page].freeSize == PAGE_SIZE - PAGE_HEADER {
        if totalPages > 1 {
          FreePage(page, i);
          released := page;
        }
      }
      if defragment {
        m := mem;
        Defragment();
        MagicAt(m, mem, block);
      }
    }
  }

  /** ptr is the address handed out with block b, between pre and post, of page i. */
  ghost predicate HandedOut(view: seq<Page>, ptr: nat, i: nat, pre: seq<Block>, b: Block, post: seq<Block>) {
    && i < |view| && view[i].blocks == pre + [b] + post && !b.free
    && ptr == Start(view[i]) + Length(pre) + BLOCK_HEADER
  }

  lemma HandedOutMarked(mem: Memory, pmem: PageMemory, view: seq<Page>, ptr: nat,
                        i: nat, pre: seq<Block>, b: Block, post: seq<Block>)
    requires Consistent(mem, pmem, view) && HandedOut(view, ptr, i, pre, b, post)
    ensures ptr >= BLOCK_HEADER && ptr - BLOCK_HEADER in mem && mem[ptr - BLOCK_HEADER].magic == SLOB_MAGIC
    ensures InPage(view[i], ptr - BLOCK_HEADER) && b.size <= LiveBytes(view)
  {
    hide PageSound, InMemory, Cells, Length, Total, LiveBytes, PagesLinked, Apart;
    PageOf(mem, pmem, view, i);
    BlockInPage(view[i], pre, b, post);
    GiveStep(mem, view[i], pre, b, post);
    LiveAt(view[i], pre, b, post);
    LiveBytesAt(view, i, view[i]);
  }

  lemma MagicSelf(mem: Memory)
    ensures MagicKept(mem, mem)
  {
  }

  lemma MagicChain(m: Memory, m': Memory, m'': Memory)
    requires MagicKept(m', m) && MagicKept(m'', m')
    ensures MagicKept(m'', m)
  {
  }

  lemma MagicAt(m: Memory, m': Memory, a: nat)
    requires MagicKept(m', m) && a in m
    ensures a in m' && m'[a].magic == m[a].magic
  {
  }

  lemma SeparatedPage(view: seq<Page>, n: nat)
    requires AllSeparated(view) && n < |view|
    ensures Separated(view[n].blocks)
  {
  }

  /** After the merge the page is in order again, and its free size tells whether it is empty. */
  lemma FreedPage(mem: Memory, pmem: PageMemory, v: seq<Page>, view: seq<Page>, i: nat,
                  pre: seq<Block>, b: Block, post: seq<Block>)
    requires Consistent(mem, pmem, view) && AllSeparated(v) && i < |v| && v[i].blocks == pre + [b] + post
    requires view == v[i := Page(v[i].base, Freed(pre, b, post))]
    ensures AllSeparated(view) && view[i].base in pmem
    ensures pmem[view[i].base].freeSize == SPACE <==> view[i] == NewPage(view[i].base)
    ensures view[i] == NewPage(view[i].base) ==> LiveOf(view[i]) == []
  {
    hide InMemory, Cells, Length, Total, Merge;
    PageOf(mem, pmem, view, i);
    HeaderOf(mem, pmem, view, i);
    MergeSeparates(pre + [b.(free := true)] + post);
    SeparatedPage(view, i);
    assert PageOk(view[i].blocks);
    var p := view[i];
    NewPageFacts(p.base);
    if Total(FreeOf(p)) == SPACE {
      AllFreeIsOneBlock(Start(p), p.blocks);
    }
  }

  lemma ListAt(mem: Memory, l: seq<Cell>, r: seq<Cell>, n: nat)
    requires CellChain(mem, l + r) && DistinctCells(l + r) && n < |l|
    ensures l[n].addr in mem && l[n].addr != NULL && (n + 1 < |l| ==> l[n + 1].addr in mem && l[n + 1].addr != NULL)
    ensures mem[l[n].addr].next == if n + 1 < |l| then l[n + 1].addr else First(r)
  {
    var t := l + r;
    assert CellLinked(mem, t, n) && t[n] == l[n];
    if n + 1 < |t| { assert CellLinked(mem, t, n + 1) && t[n + 1] == if n + 1 < |l| then l[n + 1] else r[0]; }
  }

  lemma ListFacts(mem: Memory, l: seq<Cell>, r: seq<Cell>)
    requires CellChain(mem, l + r) && DistinctCells(l + r)
    ensures l != [] ==> First(l) in mem && First(l) != NULL && Last(l) in mem
    ensures r != [] ==> First(r) in mem && First(r) != NULL
  {
    var t := l + r;
    if l != [] {
      ListAt(mem, l, r, 0);
      ListAt(mem, l, r, |l| - 1);
    }
    if r != [] { assert CellLinked(mem, t, |l|) && t[|l|] == r[0]; }
  }

  /** The free list around a block in use. */
  lemma GivenList(mem: Memory, p: Page, pre: seq<Block>, b: Block, post: seq<Block>)
    requires PageSound(p) && InMemory(mem, p) && p.blocks == pre + [b] + post && !b.free
    ensures var a, l, r := Start(p) + Length(pre), Before(p, pre, true), Behind(p, pre, b, post, true);
      && a in mem && mem[a].size == b.size && First(FreeOf(p)) == FirstOf(l, r)
      && CellChain(mem[a := mem[a].(magic := 0)], l + r) && DistinctCells(l + r)
      && (forall i :: 0 <= i < |l| ==> l[i].addr < a) && (forall i :: 0 <= i < |r| ==> a < r[i].addr)
  {
    hide Cells, Length, Total, PageSound, LiveCells, Before, Behind, CellChain, Sorted;
    var a, l, r := Start(p) + Length(pre), Before(p, pre, true), Behind(p, pre, b, post, true);
    LiveAt(p, pre, b, post);
    PageCells(p, true);
    Neighbours(p, pre, b, post);
    LiveAround(mem, Before(p, pre, false), Here(p, pre, b), Behind(p, pre, b, post, false));
    ChainBesides(mem, l, r, a);
  }

  /** Unmarking a block leaves the list around it alone. */
  lemma ChainBesides(mem: Memory, l: seq<Cell>, r: seq<Cell>, a: nat)
    requires CellChain(mem, l + r) && a in mem
    requires (forall i :: 0 <= i < |l| ==> l[i].addr < a) && (forall i :: 0 <= i < |r| ==> a < r[i].addr)
    ensures CellChain(mem[a := mem[a].(magic := 0)], l + r)
  {
    hide CellChain;
    var t: seq<Cell> := l + r;
    forall i | 0 <= i < |t| ensures t[i].addr != a { if i >= |l| { assert t[i] == r[i - |l|]; } }
    ChainElsewhere(mem, mem[a := mem[a].(magic := 0)], t);
  }

  lemma Neighbours(p: Page, pre: seq<Block>, b: Block, post: seq<Block>)
    requires PageSound(p) && p.blocks == pre + [b] + post
    ensures var a, l, r := Start(p) + Length(pre), Before(p, pre, true), Behind(p, pre, b, post, true);
      (forall i :: 0 <= i < |l| ==> l[i].addr < a) && (forall i :: 0 <= i < |r| ==> a < r[i].addr)
  {
    hide PageSound, Cells, Length, Start, FreeOf, LiveOf, CellOf;
    BlockInPage(p, pre, b, post);
    CellsSorted(Start(p), pre, true);
    CellsSorted(Start(p) + Length(pre) + b.size, post, true);
    BeforeBig(p, pre, b, post);
  }

  lemma BeforeBig(p: Page, pre: seq<Block>, b: Block, post: seq<Block>)
    requires PageSound(p) && p.blocks == pre + [b] + post
    ensures forall i :: 0 <= i < |Before(p, pre, true)| ==> Before(p, pre, true)[i].size >= MIN_BLOCK
  {
    Indices(pre, [b], post);
    assert forall i :: 0 <= i < |pre| ==> pre[i] == p.blocks[i];
    CellsBig(Start(p), pre, true);
  }

  lemma GiveMagic(mem: Memory, a: nat, prev: nat, next: nat)
    requires a in mem && (prev != NULL ==> prev in mem) && (next != NULL ==> next in mem)
    ensures a in GiveMem(mem, a, prev, next) && GiveMem(mem, a, prev, next)[a].magic == 0
  {
  }

  lemma GivenBytes(p: Page, pre: seq<Block>, b: Block, post: seq<Block>)
    requires PageSound(p) && p.blocks == pre + [b] + post && !b.free
    ensures var q := With(p, pre, [Block(b.size, true)], post);
      && Total(FreeOf(q)) == Total(FreeOf(p)) + b.size && Total(LiveOf(q)) == Total(LiveOf(p)) - b.size
      && First(FreeOf(q)) == if Before(p, pre, true) == [] then Start(p) + Length(pre) else First(Before(p, pre, true))
  {
    hide Cells, Length, Total, PageSound, Before, Behind;
    var c := Block(b.size, true);
    var q := With(p, pre, [c], post);
    FlipSound(p, pre, b, post);
    LiveAt(p, pre, b, post);
    FreeAt(q, pre, c, post);
    SamePlaces(p, q, pre, b, c, post);
  }

  ghost predicate MagicKept(m: Memory, mem: Memory) {
    forall a :: a in mem ==> a in m && m[a].magic == mem[a].magic
  }

  lemma HeaderOf(mem: Memory, pmem: PageMemory, view: seq<Page>, i: nat)
    requires Consistent(mem, pmem, view) && i < |view|
    ensures view[i].base in pmem && pmem[view[i].base].freeSize == Total(FreeOf(view[i]))
    ensures pmem[view[i].base].freeList == First(FreeOf(view[i])) && pmem[view[i].base].next == BaseAt(view, i + 1)
    ensures view[i].base != NULL
  {
    PageHeaderAt(pmem, view, i);
    BasesPositive(mem, view);
  }

  lemma MergeNothing(mem: Memory, p: Page)
    requires PageSound(p) && InMemory(mem, p) && First(FreeOf(p)) == NULL
    ensures Merge(p.blocks) == p.blocks
  {
    NoMoreCells(mem, p, 0);
    NoFreeCells(Start(p), p.blocks);
    MergeSkips(p.blocks, []);
    assert p.blocks + [] == p.blocks;
  }

  lemma MergeStart(mem: Memory, p: Page) returns (pre: seq<Block>, b: Block, post: seq<Block>)
    requires PageSound(p) && InMemory(mem, p) && First(FreeOf(p)) != NULL
    ensures p.blocks == pre + [b] + post && b.free && First(FreeOf(p)) == Start(p) + Length(pre)
    ensures Start(p) + Length(pre) in mem
    ensures Merge(p.blocks) == pre + Merge([b] + post)
  {
    pre, b, post := NextFree(Start(p), p.blocks);
    MergeSkips(pre, [b] + post);
    assert pre + ([b] + post) == pre + [b] + post;
    FreeBlockLinks(mem, p, pre, b, post);
  }

  /** The next free block behind b, and whether it touches b. */
  lemma MergeNext(mem: Memory, p: Page, pre: seq<Block>, b: Block, post: seq<Block>)
    returns (mid: seq<Block>, d: Block, rest: seq<Block>)
    requires PageSound(p) && InMemory(mem, p) && p.blocks == pre + [b] + post && b.free
    requires Start(p) + Length(pre) in mem && mem[Start(p) + Length(pre)].next != NULL
    ensures post == mid + [d] + rest && NoneFree(mid) && d.free
    ensures var a := Start(p) + Length(pre);
      && mem[a].size == b.size && mem[a].next == a + b.size + Length(mid)
      && (mid == [] <==> Length(mid) == 0) && mem[a].next in mem
      && mem[a].next == Start(p) + Length(pre + [b] + mid)
  {
    hide Cells, Total, PageSound, NoneFree;
    var a := Start(p) + Length(pre);
    FreeBlockLinks(mem, p, pre, b, post);
    mid, d, rest := NextFree(a + b.size, post);
    assert p.blocks == pre + [b] + mid + [d] + rest;
    FreeBlockLinks(mem, p, pre + [b] + mid, d, rest);
    LengthConcat(pre + [b], mid);
    LengthConcat(pre, [b]);
    assert [b][1..] == [];
    if mid != [] { PositiveLength(p, pre + [b], mid, [d] + rest); }
  }

  lemma PositiveLength(p: Page, pre: seq<Block>, mid: seq<Block>, post: seq<Block>)
    requires PageSound(p) && mid != [] && p.blocks == pre + mid + post
    ensures Length(mid) > 0
  {
    Indices(pre, mid, post);
    assert p.blocks[|pre|] == mid[0];
  }

  lemma JoinLinks(mem: Memory, p: Page, pre: seq<Block>, b: Block, d: Block, rest: seq<Block>)
    requires PageSound(p) && InMemory(mem, p) && p.blocks == pre + [b, d] + rest && b.free && d.free
    ensures var a := Start(p) + Length(pre);
      a + b.size in mem && mem[a + b.size].next != a && mem[a + b.size].next != a + b.size
  {
    hide Cells, Length, Total, PageSound;
    PairAt(p, pre, b, d, rest);
    PageCells(p, true);
    var a := Start(p) + Length(pre);
    var l, r := Before(p, pre, true), Cells(a + b.size + d.size, rest, true);
    var c1, c2 := Cell(a, b.size), Cell(a + b.size, d.size);
    Joined(mem, l, c1, c2, r);
    DistinctParts(l, [c1, c2], r);
    assert [c1, c2][0] == c1 && [c1, c2][1] == c2;
  }

  lemma MergeEnd(mem: Memory, p: Page, pre: seq<Block>, b: Block, post: seq<Block>)
    requires PageSound(p) && InMemory(mem, p) && p.blocks == pre + [b] + post && b.free
    requires Start(p) + Length(pre) in mem && mem[Start(p) + Length(pre)].next == NULL
    ensures Merge([b] + post) == [b] + post
  {
    hide Cells, Length, Total, PageSound, Merge;
    FreeBlockLinks(mem, p, pre, b, post);
    BlockInPage(p, pre, b, post);
    PageCells(p, true);
    FreeAt(p, pre, b, post);
    LinksAreMembers(Before(p, pre, true), [Here(p, pre, b)], Behind(p, pre, b, post, true));
    assert Behind(p, pre, b, post, true) == [];
    NoFreeCells(Start(p) + Length(pre) + b.size, post);
    MergeLast(b, post);
  }

  /** The pages in which a request is placed: a new one in front when nothing fits. */
  ghost function Room(view: seq<Page>, given: nat, need: nat): seq<Page> {
    if NoFit(view, need) then [NewPage(given)] + view else view
  }

  /** Block b, between pre and post, is the best fit: block k of the free list of page i. */
  ghost predicate Chosen(w: seq<Page>, need: nat, i: nat, k: nat, pre: seq<Block>, b: Block, post: seq<Block>) {
    && BestFit(w, need, i, k) && i < |w| && w[i].blocks == pre + [b] + post && b.free && b.size >= need
    && k < |FreeOf(w[i])| && FreeOf(w[i])[k] == Cell(Start(w[i]) + Length(pre), b.size)
  }

  /** The blocks of the page after a request of `size` bytes took block b: the least multiple of 8 from 32 on
      that holds the bytes and the header, with the rest left free if it is more than 32 bytes. */
  ghost function Cut(pre: seq<Block>, b: Block, post: seq<Block>, size: nat): seq<Block>
    requires b.size >= Need(size)
  {
    if b.size > Need(size) + 32
    then pre + [Block(Need(size), false), Block(b.size - Need(size), true)] + post
    else pre + [Block(b.size, false)] + post
  }

  /** A request that fits is placed in the pages there are, one that does not in a new page. */
  lemma RoomIs(v: seq<Page>, given: nat, size: nat, i: nat, k: nat, pre: seq<Block>, b: Block, post: seq<Block>)
    requires Chosen(Room(v, given, Need(size)), Need(size), i, k, pre, b, post)
    ensures Place(pre, b, post, Need(size)) == Cut(pre, b, post, size)
    ensures var w := Room(v, given, Need(size));
      if NoFit(v, Need(size)) then
        i == 0 && w[1..] == v && |w| == |v| + 1 && w[0].base == given && pre == [] && b.size == 4068 && post == []
      else w == v
  {
    PlaceCuts(pre, b, post, Need(size));
    hide FreeOf, Place, Cut, Need;
    var w := Room(v, given, Need(size));
    if NoFit(v, Need(size)) {
      OldPagesFitNothing(v, given, Need(size));
      var one := pre + [b] + post;
      assert |one| == 1 && one[|pre|] == b;
    }
  }

  lemma OldPagesFitNothing(v: seq<Page>, given: nat, need: nat)
    requires NoFit(v, need)
    ensures forall i: nat, k: nat :: 0 < i ==> !Fits([NewPage(given)] + v, i, k, need)
  {
    hide FreeOf, NewPage;
    var w := [NewPage(given)] + v;
    forall i: nat, k: nat | 0 < i ensures !Fits(w, i, k, need) {
      assert i < |w| ==> w[i] == v[i - 1];
      assert !Fits(v, i - 1, k, need);
    }
  }

  lemma BestFitsHere(view: seq<Page>, size: nat, i: nat, k: nat)
    requires BestFit(view, size, i, k)
    ensures i < |view| && k < |FreeOf(view[i])| && FreeOf(view[i])[k].size >= size
  {
  }

  /** A new page has room for every request. */
  lemma NewPageFits(view: seq<Page>, base: nat, size: nat)
    requires base % PAGE_SIZE == 20 && view != [] && view[0] == NewPage(base) && size <= SPACE
    ensures !NoFit(view, size)
  {
    NewPageFacts(base);
    assert Fits(view, 0, 0, size);
  }

  lemma OnePageHolds(mem: Memory, pmem: PageMemory, view: seq<Page>, i: nat, j: nat, a: nat)
    requires Consistent(mem, pmem, view) && i < |view| && j < |view| && InPage(view[i], a) && InPage(view[j], a)
    ensures i == j
  {
    hide InMemory, PagesLinked, InPage;
    if i != j {
      assert view[i].base != view[j].base;
      PagesDisjoint(view[i], view[j], a);
    }
  }

  lemma TakeMemIs(m: Memory, block: nat)
    requires block in m && m[block].prev != block && m[block].next != block
    requires (m[block].prev != NULL ==> m[block].prev in m) && (m[block].next != NULL ==> m[block].next in m)
    ensures TakeMem(m, block) == UnlinkMem(m, m[block].prev, m[block].next)[
                                   block := m[block].(next := NULL, prev := NULL, magic := SLOB_MAGIC)]
  {
  }

  /** Taking a block moves its bytes from free to handed out. */
  lemma TakenBytes(p: Page, pre: seq<Block>, b: Block, post: seq<Block>)
    requires PageSound(p) && p.blocks == pre + [b] + post && b.free
    ensures var q := With(p, pre, [Block(b.size, false)], post);
      && Total(FreeOf(q)) == Total(FreeOf(p)) - b.size && Total(LiveOf(q)) == Total(LiveOf(p)) + b.size
      && Total(FreeOf(p)) >= b.size
  {
    hide Cells, Length, Total, PageSound, Before, Behind;
    var q := With(p, pre, [Block(b.size, false)], post);
    FlipSound(p, pre, b, post);
    FreeAt(p, pre, b, post);
    LiveAt(q, pre, Block(b.size, false), post);
    SamePlaces(p, q, pre, b, Block(b.size, false), post);
  }

  lemma SamePlaces(p: Page, q: Page, pre: seq<Block>, b: Block, c: Block, post: seq<Block>)
    requires p.base == q.base && b.size == c.size
    ensures forall free :: Before(p, pre, free) == Before(q, pre, free)
    ensures forall free :: Behind(p, pre, b, post, free) == Behind(q, pre, c, post, free)
  {
  }

  lemma PageOf(mem: Memory, pmem: PageMemory, view: seq<Page>, i: nat)
    requires Consistent(mem, pmem, view) && i < |view|
    ensures PageSound(view[i]) && InMemory(mem, view[i])
  {
    hide PageSound, InMemory;
  }

  /** A step that keeps the free bytes and the list head writes the same page header. */
  lemma SameHeader(pmem: PageMemory, q: Page)
    requires q.base in pmem && pmem[q.base].freeSize == Total(FreeOf(q)) && pmem[q.base].freeList == First(FreeOf(q))
    ensures PageUpdate(pmem, q.base, Total(FreeOf(q)), First(FreeOf(q))) == pmem
  {
  }

  lemma LinkedBases(pmem: PageMemory, view: seq<Page>)
    requires PagesLinked(pmem, view)
    ensures forall i :: 0 <= i < |view| ==> view[i].base in pmem
  {
    forall i: nat | i < |view| ensures view[i].base in pmem { assert PageLinked(pmem, view, i); }
  }

  lemma NewPageInMemory(mem: Memory, m: Memory, p: Page)
    requires p.base % PAGE_SIZE == 20 && p == NewPage(p.base)
    requires m == mem[p.base + PAGE_HEADER := Header(SPACE, 0, NULL, NULL)]
    ensures PageSound(p) && InMemory(m, p) && OnlyIn(m, mem, p)
  {
    NewPageFacts(p.base);
    ChainOfOne(m, Cell(p.base + PAGE_HEADER, SPACE));
  }

  lemma OnePage(p: Page)
    ensures LiveBytes([p]) == Total(LiveOf(p))
  {
    assert [p][1..] == [];
  }

  lemma TotalOfNone()
    ensures Total([]) == 0
  {
  }

  lemma BridgeSelf(pm: PageMemory, view: seq<Page>, i: nat)
    requires PagesLinked(pm, view) && Apart(view) && i < |view|
    requires forall j :: 0 <= j < |view| ==> view[j].base != NULL
    ensures BaseAt(view, i - 1) != view[i].base && BaseAt(view, i + 1) != view[i].base
  {
  }

  lemma BridgedIs(pm: PageMemory, prev: nat, next: nat)
    requires (prev != NULL ==> prev in pm) && (next != NULL ==> next in pm)
    ensures Bridged(pm, prev, next) == PageSetPrev(PageSetNext(pm, prev, next), next, prev)
  {
  }

  lemma WithoutIs(view: seq<Page>, i: nat)
    requires i < |view|
    ensures BaseAt(Without(view, i), 0) == if i == 0 then BaseAt(view, 1) else BaseAt(view, 0)
    ensures AllSeparated(view) ==> AllSeparated(Without(view, i))
  {
    var w := Without(view, i);
    assert forall j :: 0 <= j < |w| ==> w[j] == view[if j < i then j else j + 1];
  }

  lemma StartOfSearch(view: seq<Page>, size: nat)
    ensures Progress(view, size, 0, 0, NULL, NO_SIZE, 0, 0)
  {
  }

  lemma PageHeaderAt(pmem: PageMemory, view: seq<Page>, n: nat)
    requires PagesLinked(pmem, view) && n < |view|
    ensures view[n].base in pmem && pmem[view[n].base].next == BaseAt(view, n + 1)
    ensures pmem[view[n].base].prev == BaseAt(view, n - 1)
    ensures pmem[view[n].base].freeList == AddrAt(FreeOf(view[n]), 0)
    ensures pmem[view[n].base].freeSize == Total(FreeOf(view[n]))
  {
    assert PageLinked(pmem, view, n);
  }

  lemma NoMoreCells(mem: Memory, p: Page, m: nat)
    requires PageSound(p) && InMemory(mem, p) && m <= |FreeOf(p)| && AddrAt(FreeOf(p), m) == NULL
    ensures m == |FreeOf(p)|
  {
    if m < |FreeOf(p)| { FreeBlockHeader(mem, p, m); }
  }

  lemma ProgressIsBest(view: seq<Page>, size: nat, n: nat, m: nat, best: nat, bestSize: nat, i: nat, k: nat)
    requires Progress(view, size, n, m, best, bestSize, i, k) && best != NULL
    ensures BestOf(view, size, n, m, i, k) && i < |view| && k < |FreeOf(view[i])|
    ensures best == FreeOf(view[i])[k].addr && bestSize == FreeOf(view[i])[k].size
  {
  }

  lemma ProgressIsNone(view: seq<Page>, size: nat, n: nat, m: nat, best: nat, bestSize: nat, i: nat, k: nat)
    requires Progress(view, size, n, m, best, bestSize, i, k) && best == NULL
    ensures NoneFits(view, size, n, m)
  {
  }

  lemma FoundIsNotNone(view: seq<Page>, size: nat, i: nat, k: nat)
    requires BestFit(view, size, i, k)
    ensures !NoFit(view, size) && i < |view| && k < |FreeOf(view[i])|
  {
    assert Fits(view, i, k, size);
  }
}
