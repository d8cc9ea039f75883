/** All SLOB pages with their headers: what holds in memory for a given list of pages. */
module SlobState {
  import opened SlobPages
  import opened SlobHeaders

  datatype Page = Page(base: nat, blocks: seq<Block>)

  datatype PageHeader = PageHeader(freeSize: nat, freeList: nat, next: nat, prev: nat)

  type PageMemory = map<nat, PageHeader>

  function Start(p: Page): nat {
    p.base + PAGE_HEADER
  }

  function FreeOf(p: Page): seq<Cell> {
    Cells(Start(p), p.blocks, true)
  }

  function LiveOf(p: Page): seq<Cell> {
    Cells(Start(p), p.blocks, false)
  }

  /** The blocks tile the page, which comes from the page allocator 20 bytes into a 4096-aligned block. */
  ghost predicate PageSound(p: Page) {
    Length(p.blocks) == SPACE && Sized(p.blocks) && p.base % PAGE_SIZE == 20
  }

  ghost predicate Apart(pages: seq<Page>) {
    forall i, j :: 0 <= i < j < |pages| ==> pages[i].base != pages[j].base
  }

  ghost predicate InMemory(mem: Memory, p: Page) {
    CellChain(mem, FreeOf(p)) && LiveCells(mem, LiveOf(p))
  }

  function BaseAt(pages: seq<Page>, i: int): nat {
    if 0 <= i < |pages| then pages[i].base else NULL
  }

  /** Page i is described by its header and linked to its neighbours. */
  ghost predicate PageLinked(pmem: PageMemory, pages: seq<Page>, i: nat)
    requires i < |pages|
  {
    && pages[i].base in pmem
    && pmem[pages[i].base] == PageHeader(Total(FreeOf(pages[i])), First(FreeOf(pages[i])),
                                         BaseAt(pages, i + 1), BaseAt(pages, i - 1))
  }

  ghost predicate PagesLinked(pmem: PageMemory, pages: seq<Page>) {
    forall i {:trigger PageLinked(pmem, pages, i)} :: 0 <= i < |pages| ==> PageLinked(pmem, pages, i)
  }

  ghost predicate AllValid(mem: Memory, pages: seq<Page>) {
    forall i {:trigger pages[i]} :: 0 <= i < |pages| ==> PageSound(pages[i]) && InMemory(mem, pages[i])
  }

  ghost predicate Consistent(mem: Memory, pmem: PageMemory, pages: seq<Page>) {
    AllValid(mem, pages) && Apart(pages) && PagesLinked(pmem, pages)
  }

  /** Bytes handed out, block headers included. */
  function LiveBytes(pages: seq<Page>): nat {
    if pages == [] then 0 else Total(LiveOf(pages[0])) + LiveBytes(pages[1..])
  }

  // ---- cells of a page ----

  ghost predicate InPage(p: Page, a: nat) {
    p.base <= a < p.base + PAGE_SIZE
  }

  lemma PageFacts(p: Page)
    requires PageSound(p)
    ensures Sized(p.blocks) && Length(p.blocks) == SPACE && Start(p) % ALIGN == 0
    ensures p.base < Start(p) && Start(p) + SPACE == p.base + PAGE_SIZE
  {
    hide Sized, Length;
    assert p.base == p.base / PAGE_SIZE * PAGE_SIZE + 20;
  }

  /** All cells of a page lie behind its header, inside it, in order and 8-aligned. */
  lemma PageCells(p: Page, free: bool)
    requires PageSound(p)
    ensures var c := Cells(Start(p), p.blocks, free);
      && DistinctCells(c) && Sorted(c, Start(p), p.base + PAGE_SIZE)
      && (forall i :: 0 <= i < |c| ==> c[i].addr % ALIGN == 0 && c[i].size >= MIN_BLOCK)
  {
    PageFacts(p);
    hide PageSound, Start, Cells, Sorted, DistinctCells, Sized, Length;
    CellsSorted(Start(p), p.blocks, free);
    CellsDistinct(Start(p), p.blocks, free);
    SortedDistinct(Cells(Start(p), p.blocks, free), Start(p), Start(p) + Length(p.blocks));
    CellsAligned(Start(p), p.blocks, free);
  }

  lemma SortedDistinct(c: seq<Cell>, from: nat, to: nat)
    requires Sorted(c, from, to) && from > 0 && forall i, j :: 0 <= i < j < |c| ==> c[i].addr < c[j].addr
    ensures DistinctCells(c)
  {
  }

  /** One cell of a page. */
  lemma PageCell(p: Page, free: bool, k: nat)
    requires PageSound(p) && k < |Cells(Start(p), p.blocks, free)|
    ensures var c := Cells(Start(p), p.blocks, free)[k];
      p.base <= c.addr && c.addr + c.size <= p.base + PAGE_SIZE && (c.addr + BLOCK_HEADER) % ALIGN == 0
  {
    PageFacts(p);
    hide PageSound, Start, Cells, Sized, Length;
    OneCell(Start(p), p.blocks, free, k);
    OneAligned(Start(p), p.blocks, free, k);
  }

  lemma OneCell(start: nat, blocks: seq<Block>, free: bool, k: nat)
    requires k < |Cells(start, blocks, free)|
    ensures var c := Cells(start, blocks, free)[k]; start <= c.addr && c.addr + c.size <= start + Length(blocks)
  {
    CellsSorted(start, blocks, free);
    hide Cells, Length;
  }

  lemma OneAligned(start: nat, blocks: seq<Block>, free: bool, k: nat)
    requires k < |Cells(start, blocks, free)| && Sized(blocks) && start % ALIGN == 0
    ensures (Cells(start, blocks, free)[k].addr + BLOCK_HEADER) % ALIGN == 0
  {
    CellsAligned(start, blocks, free);
    hide Cells, Sized;
    assert Cells(start, blocks, free)[k].addr % ALIGN == 0;
  }

  /** Two cells of a page. */
  lemma TwoCells(p: Page, free: bool, k: nat, n: nat)
    requires k < n < |Cells(Start(p), p.blocks, free)|
    ensures var c, d := Cells(Start(p), p.blocks, free)[k], Cells(Start(p), p.blocks, free)[n]; c.addr + c.size <= d.addr
  {
    CellsSorted(Start(p), p.blocks, free);
    hide Cells, Length;
  }

  /** Pages 20 bytes into different 4096-blocks do not overlap. */
  lemma PagesDisjoint(p: Page, q: Page, a: nat)
    requires PageSound(p) && PageSound(q) && p.base != q.base && InPage(p, a)
    ensures !InPage(q, a)
  {
  }

  /** Changes outside a page do not matter to it. */
  lemma ElsewhereKept(mem: Memory, m: Memory, p: Page)
    requires PageSound(p) && InMemory(mem, p)
    requires forall a :: a in mem && InPage(p, a) ==> a in m && m[a] == mem[a]
    ensures InMemory(m, p)
  {
    PageCells(p, true);
    PageCells(p, false);
    ChainElsewhere(mem, m, FreeOf(p));
    forall i | 0 <= i < |LiveOf(p)| ensures LiveCell(m, LiveOf(p)[i]) { assert LiveCell(mem, LiveOf(p)[i]); }
  }

  // ---- one block of a page ----

  /** Changing free blocks, and no block in use, leaves the blocks in use alone. */
  lemma LiveKept(mem: Memory, m: Memory, p: Page, extra: nat)
    requires PageSound(p) && LiveCells(mem, LiveOf(p)) && Touches(m, mem, FreeOf(p), extra)
    requires forall i :: 0 <= i < |LiveOf(p)| ==> LiveOf(p)[i].addr != extra
    ensures LiveCells(m, LiveOf(p))
  {
    forall i | 0 <= i < |LiveOf(p)| ensures LiveCell(m, LiveOf(p)[i]) {
      assert LiveCell(mem, LiveOf(p)[i]);
      forall k | 0 <= k < |FreeOf(p)| ensures FreeOf(p)[k].addr != LiveOf(p)[i].addr {
        FreeLiveApart(Start(p), p.blocks, k, i);
      }
    }
  }

  /** Other pages are not affected. */
  ghost predicate OnlyIn(m: Memory, mem: Memory, p: Page) {
    mem.Keys <= m.Keys && forall a :: a in mem && !InPage(p, a) ==> m[a] == mem[a]
  }

  lemma TouchesOnlyPage(mem: Memory, m: Memory, p: Page, extra: nat)
    requires PageSound(p) && Touches(m, mem, FreeOf(p), extra) && InPage(p, extra)
    ensures OnlyIn(m, mem, p)
  {
    PageCells(p, true);
    forall a | a in mem && !InPage(p, a) ensures m[a] == mem[a] {
    }
  }

  /** A block of a page in its surroundings: the free blocks before and after it. */
  lemma BlockInPage(p: Page, pre: seq<Block>, b: Block, post: seq<Block>)
    requires PageSound(p) && p.blocks == pre + [b] + post
    ensures var a := Start(p) + Length(pre);
      && b.size >= MIN_BLOCK && InPage(p, a) && a + b.size <= p.base + PAGE_SIZE && a != NULL
      && FreeOf(p) == Cells(Start(p), pre, true) + CellOf(a, b, true) + Cells(a + b.size, post, true)
      && LiveOf(p) == Cells(Start(p), pre, false) + CellOf(a, b, false) + Cells(a + b.size, post, false)
      && Length(p.blocks) == Length(pre) + b.size + Length(post)
  {
    CellsAround(Start(p), pre, b, post, true);
    CellsAround(Start(p), pre, b, post, false);
    Indices(pre, [b], post);
    assert p.blocks[|pre|] == b;
  }
}
