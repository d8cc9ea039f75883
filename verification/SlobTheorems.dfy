/** What SLOB promises its callers, over the page lists that alloc and free produce. */
module SlobTheorems {
  import opened SlobPages
  import opened SlobHeaders
  import opened SlobState
  import opened SlobLists

  /** The block handed out by a placement, and what is behind it. */
  function Taken(b: Block, need: nat): Block
    requires b.size >= need
  {
    Carved(b, need)[0]
  }

  function Rest(b: Block, post: seq<Block>, need: nat): seq<Block>
    requires b.size >= need
  {
    Carved(b, need)[1..] + post
  }

  lemma PlaceIs(pre: seq<Block>, b: Block, post: seq<Block>, need: nat)
    requires b.size >= need
    ensures Place(pre, b, post, need) == pre + [Taken(b, need)] + Rest(b, post, need)
    ensures !Taken(b, need).free && need <= Taken(b, need).size <= b.size
  {
    assert Carved(b, need) == [Taken(b, need)] + Carved(b, need)[1..];
  }

  /** Freeing the block that was just placed restores the page, whether or not it was split. */
  lemma FreeUndoesAlloc(pre: seq<Block>, b: Block, post: seq<Block>, need: nat)
    requires Separated(pre + [b] + post) && b.free && b.size >= need
    ensures Freed(pre, Taken(b, need), Rest(b, post, need)) == pre + [b] + post
  {
    hide Merge;
    if Splits(b, need) {
      var c, d := Block(need, true), Block(b.size - need, true);
      assert Carved(b, need)[1..] == [d];
      assert pre + [c] + ([d] + post) == pre + [c, d] + post;
      MergeJoinsFirst(pre, c, d, post);
      assert Block(c.size + d.size, true) == b;
    } else {
      assert Carved(b, need)[1..] == [];
      assert Block(b.size, true) == b;
      assert pre + [b] + ([] + post) == pre + [b] + post;
    }
    MergeIsIdle(pre + [b] + post);
  }

  /** A placement hands out one more block and leaves all others where they are. */
  lemma AllocOnlyAdds(p: Page, pre: seq<Block>, b: Block, post: seq<Block>, need: nat)
    requires p.blocks == pre + [b] + post && b.free && b.size >= need
    ensures var q := Page(p.base, Place(pre, b, post, need));
      var l, r := Cells(Start(p), pre, false), Cells(Start(p) + Length(pre) + b.size, post, false);
      && LiveOf(p) == l + r
      && LiveOf(q) == l + [Cell(Start(p) + Length(pre), Taken(b, need).size)] + r
  {
    hide Cells, Length, Splits;
    var start := Start(p);
    var a, t := start + Length(pre), Taken(b, need);
    PlaceIs(pre, b, post, need);
    CellsAround(start, pre, b, post, false);
    CellsAround(start, pre, t, Rest(b, post, need), false);
    RestLive(a, b, post, need);
    assert Cells(start, pre, false) + [] + Cells(a + b.size, post, false)
        == Cells(start, pre, false) + Cells(a + b.size, post, false);
  }

  lemma RestLive(a: nat, b: Block, post: seq<Block>, need: nat)
    requires b.size >= need
    ensures Cells(a + Taken(b, need).size, Rest(b, post, need), false) == Cells(a + b.size, post, false)
  {
    if Splits(b, need) {
      var d := Block(b.size - need, true);
      assert Carved(b, need)[1..] == [d];
      CellsAround(a + need, [], d, post, false);
      assert [] + [d] + post == [d] + post;
      assert [] + [] + Cells(a + b.size, post, false) == Cells(a + b.size, post, false);
    } else {
      assert Carved(b, need)[1..] == [] && [] + post == post;
    }
  }

  /** Freeing a block takes back that block and leaves all others where they are. */
  lemma FreeOnlyRemoves(p: Page, pre: seq<Block>, b: Block, post: seq<Block>)
    requires p.blocks == pre + [b] + post && !b.free
    ensures var q := Page(p.base, Freed(pre, b, post));
      var l, r := Cells(Start(p), pre, false), Cells(Start(p) + Length(pre) + b.size, post, false);
      && LiveOf(p) == l + [Cell(Start(p) + Length(pre), b.size)] + r
      && LiveOf(q) == l + r
  {
    hide Cells, Length, Merge;
    var start, c := Start(p), b.(free := true);
    CellsAround(start, pre, b, post, false);
    CellsAround(start, pre, c, post, false);
    MergeKeepsLive(start, pre + [c] + post);
    var l, r := Cells(start, pre, false), Cells(start + Length(pre) + b.size, post, false);
    assert l + [] + r == l + r;
  }

  function FreeBytes(view: seq<Page>): nat {
    if view == [] then 0 else Total(FreeOf(view[0])) + FreeBytes(view[1..])
  }

  /** Free and handed-out bytes of all pages make up all bytes behind the page headers. */
  lemma {:induction false} BytesConserved(mem: Memory, view: seq<Page>)
    requires AllValid(mem, view)
    ensures LiveBytes(view) + FreeBytes(view) == SPACE * |view|
  {
    hide InMemory;
    if view != [] {
      TotalsAddUp(Start(view[0]), view[0].blocks);
      assert forall i {:trigger view[1..][i]} :: 0 <= i < |view| - 1 ==> view[1..][i] == view[i + 1];
      BytesConserved(mem, view[1..]);
    }
  }

  lemma BasesApart(x: nat, y: nat)
    requires x % PAGE_SIZE == y % PAGE_SIZE && x != y
    ensures x + PAGE_SIZE <= y || y + PAGE_SIZE <= x
  {
  }

  /** Blocks handed out, in the same page or in two, never overlap; what the caller gets is 8-aligned. */
  lemma HandedOutApart(mem: Memory, view: seq<Page>, i: nat, j: nat, k: nat, n: nat)
    requires AllValid(mem, view) && Apart(view) && i < |view| && j < |view|
    requires k < |LiveOf(view[i])| && n < |LiveOf(view[j])| && (i != j || k != n)
    ensures var c, d := LiveOf(view[i])[k], LiveOf(view[j])[n];
      (c.addr + c.size <= d.addr || d.addr + d.size <= c.addr) && (c.addr + BLOCK_HEADER) % ALIGN == 0
  {
    hide InMemory, Cells;
    var p, q := view[i], view[j];
    PageCell(p, false, k);
    PageCell(q, false, n);
    if i != j {
      assert p.base != q.base;
      BasesApart(p.base, q.base);
    } else if k < n {
      TwoCells(p, false, k, n);
    } else {
      TwoCells(p, false, n, k);
    }
  }
}
