/** What the header writes of SLOB do to a page: split, take, give back, join. */
module SlobSteps {
  import opened SlobPages
  import opened SlobHeaders
  import opened SlobState

  /** p with the block between pre and post replaced. */
  function With(p: Page, pre: seq<Block>, mid: seq<Block>, post: seq<Block>): Page {
    Page(p.base, pre + mid + post)
  }

  lemma PairCells(start: nat, pre: seq<Block>, b: Block, c: Block, post: seq<Block>, free: bool)
    ensures Cells(start, pre + [b, c] + post, free)
      == Cells(start, pre, free) + (CellOf(start + Length(pre), b, free)
         + CellOf(start + Length(pre) + b.size, c, free)) + Cells(start + Length(pre) + b.size + c.size, post, free)
    ensures Length(pre + [b, c] + post) == Length(pre) + b.size + c.size + Length(post)
  {
    assert pre + [b, c] + post == pre + [b] + ([c] + post) == (pre + [b]) + [c] + post;
    CellsAround(start, pre, b, [c] + post, free);
    CellsAround(start + Length(pre) + b.size, [], c, post, free);
    assert [] + [c] + post == [c] + post;
    assert Cells(start + Length(pre) + b.size, [c] + post, free)
        == CellOf(start + Length(pre) + b.size, c, free) + Cells(start + Length(pre) + b.size + c.size, post, free);
  }

  /** The blocks a page has in the middle of an allocation: b split in two free blocks. */
  function Halves(b: Block, size: nat): seq<Block>
    requires size <= b.size
  {
    [Block(size, true), Block(b.size - size, true)]
  }

  lemma SplitSound(p: Page, pre: seq<Block>, b: Block, post: seq<Block>, size: nat)
    requires PageSound(p) && p.blocks == pre + [b] + post && b.free
    requires MIN_BLOCK <= size && size + MIN_BLOCK <= b.size && size % ALIGN == 0
    ensures PageSound(With(p, pre, Halves(b, size), post))
  {
    SizedReplace(pre, b, post, Halves(b, size));
    PairCells(Start(p), pre, Halves(b, size)[0], Halves(b, size)[1], post, true);
    CellsAround(Start(p), pre, b, post, true);
  }

  /** The free list before and after a split. */
  lemma SplitCells(p: Page, pre: seq<Block>, b: Block, post: seq<Block>, size: nat)
    requires PageSound(p) && p.blocks == pre + [b] + post && b.free && size <= b.size
    ensures var a, q := Start(p) + Length(pre), With(p, pre, Halves(b, size), post);
      var left, right := Cells(Start(p), pre, true), Cells(a + b.size, post, true);
      && FreeOf(p) == left + [Cell(a, b.size)] + right
      && FreeOf(q) == left + [Cell(a, size), Cell(a + size, b.size - size)] + right
      && LiveOf(q) == LiveOf(p) && Total(FreeOf(q)) == Total(FreeOf(p)) && First(FreeOf(q)) == First(FreeOf(p))
  {
    hide Cells, Length, Total, PageSound;
    var a := Start(p) + Length(pre);
    var left, right := Cells(Start(p), pre, true), Cells(a + b.size, post, true);
    var c, c1, c2 := Cell(a, b.size), Cell(a, size), Cell(a + size, b.size - size);
    BlockInPage(p, pre, b, post);
    PairCells(Start(p), pre, Halves(b, size)[0], Halves(b, size)[1], post, true);
    PairCells(Start(p), pre, Halves(b, size)[0], Halves(b, size)[1], post, false);
    assert [c1] + [c2] == [c1, c2];
    TotalAround(left, [c], right);
    TotalAround(left, [c1, c2], right);
    TotalOf(c);
    TotalOf(c1);
    TotalOf(c2);
    TotalConcat([c1], [c2]);
    FirstAround(left, [c], right);
    FirstAround(left, [c1, c2], right);
  }

  lemma TotalOf(c: Cell)
    ensures Total([c]) == c.size
  {
    assert [c][1..] == [];
  }

  lemma FirstAround(left: seq<Cell>, mid: seq<Cell>, right: seq<Cell>)
    requires mid != []
    ensures First(left + mid + right) == if left == [] then mid[0].addr else First(left)
  {
  }

  lemma TotalAround(left: seq<Cell>, mid: seq<Cell>, right: seq<Cell>)
    ensures Total(left + mid + right) == Total(left) + Total(mid) + Total(right)
  {
    TotalConcat(left + mid, right);
    TotalConcat(left, mid);
  }

  lemma SplitStep(mem: Memory, p: Page, pre: seq<Block>, b: Block, post: seq<Block>, size: nat)
    requires PageSound(p) && InMemory(mem, p) && p.blocks == pre + [b] + post && b.free
    requires MIN_BLOCK <= size && size + MIN_BLOCK <= b.size && size % ALIGN == 0
    ensures var a := Start(p) + Length(pre);
      && a in mem && mem[a].size == b.size && (mem[a].next != NULL ==> mem[a].next in mem)
      && var m, q := SplitMem(mem, a, size), With(p, pre, Halves(b, size), post);
      && InMemory(m, q) && OnlyIn(m, mem, p)
  {
    hide Cells, CellChain, Total, Length, DistinctCells, Touches, Sorted, PageSound, LiveCells, SplitMem;
    var a := Start(p) + Length(pre);
    var left, right := Cells(Start(p), pre, true), Cells(a + b.size, post, true);
    BlockInPage(p, pre, b, post);
    PageCells(p, true);
    SplitCells(p, pre, b, post, size);
    NoCellInside(p, pre, b, post, a + size);
    FreeMembers(p, left, [Cell(a, b.size)], right);
    SplitInTwo(mem, left, Cell(a, b.size), right, size);
    LiveKept(mem, SplitMem(mem, a, size), p, a + size);
    TouchesOnlyPage(mem, SplitMem(mem, a, size), p, a + size);
  }

  lemma NoCellInside(p: Page, pre: seq<Block>, b: Block, post: seq<Block>, x: nat)
    requires p.blocks == pre + [b] + post
    requires Start(p) + Length(pre) < x < Start(p) + Length(pre) + b.size
    ensures forall i :: 0 <= i < |FreeOf(p)| ==> FreeOf(p)[i].addr != x
    ensures forall i :: 0 <= i < |LiveOf(p)| ==> LiveOf(p)[i].addr != x
  {
    NothingInside(Start(p), pre, b, post, x, true);
    NothingInside(Start(p), pre, b, post, x, false);
    assert FreeOf(p) == Cells(Start(p), pre + [b] + post, true);
    assert LiveOf(p) == Cells(Start(p), pre + [b] + post, false);
  }

  lemma FreeMembers(p: Page, left: seq<Cell>, mid: seq<Cell>, right: seq<Cell>)
    requires FreeOf(p) == left + mid + right
    ensures forall i :: 0 <= i < |left| ==> FreeOf(p)[i] == left[i]
    ensures forall i :: 0 <= i < |right| ==> FreeOf(p)[|left| + |mid| + i] == right[i]
  {
  }

  // ---- taking a block off the free list, and giving it back ----

  /** The free and handed-out cells around a block. */
  function Before(p: Page, pre: seq<Block>, free: bool): seq<Cell> {
    Cells(Start(p), pre, free)
  }

  function Behind(p: Page, pre: seq<Block>, b: Block, post: seq<Block>, free: bool): seq<Cell> {
    Cells(Start(p) + Length(pre) + b.size, post, free)
  }

  function Here(p: Page, pre: seq<Block>, b: Block): Cell {
    Cell(Start(p) + Length(pre), b.size)
  }

  lemma FreeAt(p: Page, pre: seq<Block>, b: Block, post: seq<Block>)
    requires PageSound(p) && p.blocks == pre + [b] + post && b.free
    ensures var l, c, r := Before(p, pre, true), Here(p, pre, b), Behind(p, pre, b, post, true);
      && FreeOf(p) == l + [c] + r && LiveOf(p) == Before(p, pre, false) + Behind(p, pre, b, post, false)
      && Total(FreeOf(p)) == Total(l) + b.size + Total(r)
      && Total(LiveOf(p)) == Total(Before(p, pre, false)) + Total(Behind(p, pre, b, post, false))
      && First(FreeOf(p)) == if l == [] then c.addr else First(l)
  {
    BlockInPage(p, pre, b, post);
    hide Cells, Length, Total, PageSound;
    var l, c, r := Before(p, pre, true), Here(p, pre, b), Behind(p, pre, b, post, true);
    var l', r' := Before(p, pre, false), Behind(p, pre, b, post, false);
    assert l' + [] + r' == l' + r';
    TotalAround(l, [c], r);
    TotalConcat(l', r');
    TotalOf(c);
    FirstAround(l, [c], r);
  }

  lemma LiveAt(p: Page, pre: seq<Block>, b: Block, post: seq<Block>)
    requires PageSound(p) && p.blocks == pre + [b] + post && !b.free
    ensures var l, c, r := Before(p, pre, false), Here(p, pre, b), Behind(p, pre, b, post, false);
      && LiveOf(p) == l + [c] + r && FreeOf(p) == Before(p, pre, true) + Behind(p, pre, b, post, true)
      && Total(LiveOf(p)) == Total(l) + b.size + Total(r)
      && Total(FreeOf(p)) == Total(Before(p, pre, true)) + Total(Behind(p, pre, b, post, true))
      && First(FreeOf(p)) == FirstOf(Before(p, pre, true), Behind(p, pre, b, post, true))
  {
    BlockInPage(p, pre, b, post);
    hide Cells, Length, Total, PageSound, Sized, First;
    var l, c, r := Before(p, pre, false), Here(p, pre, b), Behind(p, pre, b, post, false);
    var l', r' := Before(p, pre, true), Behind(p, pre, b, post, true);
    assert LiveOf(p) == l + [c] + r;
    assert FreeOf(p) == l' + r' by { assert l' + [] + r' == l' + r'; }
    TotalAround(l, [c], r);
    TotalConcat(l', r');
    TotalOf(c);
    FirstOfTwo(l', r');
  }

  lemma FirstOfTwo(a: seq<Cell>, b: seq<Cell>)
    ensures First(a + b) == FirstOf(a, b)
  {
  }

  lemma FlipSound(p: Page, pre: seq<Block>, b: Block, post: seq<Block>)
    requires PageSound(p) && p.blocks == pre + [b] + post
    ensures PageSound(With(p, pre, [Block(b.size, !b.free)], post))
  {
    var d := Block(b.size, !b.free);
    BlockInPage(p, pre, b, post);
    SizedReplace(pre, b, post, [d]);
    CellsAround(Start(p), pre, d, post, true);
  }

  /** remove_free_block and the marking of the block. */
  function TakeMem(mem: Memory, a: nat): Memory
    requires a in mem && (mem[a].prev != NULL ==> mem[a].prev in mem) && (mem[a].next != NULL ==> mem[a].next in mem)
  {
    UnlinkMem(mem, mem[a].prev, mem[a].next)[a := Header(mem[a].size, SLOB_MAGIC, NULL, NULL)]
  }

  lemma TakeStep(mem: Memory, p: Page, pre: seq<Block>, b: Block, post: seq<Block>)
    requires PageSound(p) && InMemory(mem, p) && p.blocks == pre + [b] + post && b.free
    ensures var a, q := Start(p) + Length(pre), With(p, pre, [Block(b.size, false)], post);
      && a in mem && mem[a].size == b.size
      && (mem[a].prev != NULL ==> mem[a].prev in mem) && (mem[a].next != NULL ==> mem[a].next in mem)
      && PageSound(q) && InMemory(TakeMem(mem, a), q) && OnlyIn(TakeMem(mem, a), mem, p)
      && First(FreeOf(q)) == if First(FreeOf(p)) == a then mem[a].next else First(FreeOf(p))
  {
    hide Cells, CellChain, Total, Length, Sorted, PageSound, LiveCells;
    var a, d, q := Start(p) + Length(pre), Block(b.size, false), With(p, pre, [Block(b.size, false)], post);
    var l, c, r := Before(p, pre, true), Here(p, pre, b), Behind(p, pre, b, post, true);
    BlockInPage(p, pre, b, post);
    PageCells(p, true);
    FlipSound(p, pre, b, post);
    FreeAt(p, pre, b, post);
    LiveAt(q, pre, d, post);
    Unlinked(mem, l, c, r);
    TakeLinks(mem, l, c, r);
    FirstIsHead(l, c, r);
    NotLive(p, pre, b, post);
    var m := TakeMem(mem, a);
    LiveKept(mem, m, p, a);
    LiveAround(m, Before(p, pre, false), c, Behind(p, pre, b, post, false));
    TouchesOnlyPage(mem, m, p, a);
  }

  lemma TakeLinks(mem: Memory, l: seq<Cell>, c: Cell, r: seq<Cell>)
    requires CellChain(mem, l + [c] + r) && DistinctCells(l + [c] + r) && c.addr in mem
    requires mem[c.addr] == Header(c.size, 0, First(r), Last(l))
    requires (Last(l) != NULL ==> Last(l) in mem) && (First(r) != NULL ==> First(r) in mem)
    ensures CellChain(TakeMem(mem, c.addr), l + r)
    ensures Touches(TakeMem(mem, c.addr), mem, l + [c] + r, c.addr)
    ensures LiveCell(TakeMem(mem, c.addr), c)
  {
    Unlinked(mem, l, c, r);
    DistinctParts(l, [c], r);
    assert [c][0] == c;
    ChainElsewhere(UnlinkMem(mem, Last(l), First(r)), TakeMem(mem, c.addr), l + r);
  }

  lemma FirstIsHead(l: seq<Cell>, c: Cell, r: seq<Cell>)
    requires DistinctCells(l + [c] + r)
    ensures First(l + [c] + r) == c.addr <==> l == []
    ensures FirstOf(l, r) == if l == [] then First(r) else First(l + [c] + r)
  {
    DistinctParts(l, [c], r);
    assert [c][0] == c;
  }

  lemma LiveAround(m: Memory, left: seq<Cell>, c: Cell, right: seq<Cell>)
    ensures LiveCells(m, left + [c] + right) <==> LiveCells(m, left + right) && LiveCell(m, c)
  {
    hide LiveCell;
    var s, t := left + [c] + right, left + right;
    At(left, [c], right);
    assert s[|left|] == c;
    if LiveCells(m, s) {
      forall i | 0 <= i < |t| ensures LiveCell(m, t[i]) { assert t[i] == s[if i < |left| then i else i + 1]; }
    }
    if LiveCells(m, t) && LiveCell(m, c) {
      forall i | 0 <= i < |s| ensures LiveCell(m, s[i]) {
        if i != |left| { assert s[i] == t[if i < |left| then i else i - 1]; }
      }
    }
  }

  /** The address of a free block is not that of a block in use. */
  lemma NotLive(p: Page, pre: seq<Block>, b: Block, post: seq<Block>)
    requires PageSound(p) && p.blocks == pre + [b] + post && b.free
    ensures forall j :: 0 <= j < |LiveOf(p)| ==> LiveOf(p)[j].addr != Start(p) + Length(pre)
  {
    FreeAt(p, pre, b, post);
    var left := Cells(Start(p), pre, true);
    assert FreeOf(p)[|left|].addr == Start(p) + Length(pre);
    FreeNotLive(p, |left|);
  }

  /** Clearing the mark and add_free_block between prev and next. */
  function GiveMem(mem: Memory, a: nat, prev: nat, next: nat): Memory
    requires a in mem && (prev != NULL ==> prev in mem) && (next != NULL ==> next in mem)
  {
    InsertMem(mem[a := mem[a].(magic := 0)], a, prev, next)
  }

  lemma GiveStep(mem: Memory, p: Page, pre: seq<Block>, b: Block, post: seq<Block>)
    requires PageSound(p) && InMemory(mem, p) && p.blocks == pre + [b] + post && !b.free
    ensures var a, q := Start(p) + Length(pre), With(p, pre, [Block(b.size, true)], post);
      var l, r := Before(p, pre, true), Behind(p, pre, b, post, true);
      && LiveCell(mem, Cell(a, b.size))
      && (Last(l) != NULL ==> Last(l) in mem) && (First(r) != NULL ==> First(r) in mem)
      && var m := GiveMem(mem, a, Last(l), First(r));
      && PageSound(q) && InMemory(m, q) && OnlyIn(m, mem, p)
      && First(FreeOf(q)) == if l == [] then a else First(FreeOf(p))
  {
    hide Cells, CellChain, Total, Length, Sorted, PageSound, LiveCells;
    var a, d, q := Start(p) + Length(pre), Block(b.size, true), With(p, pre, [Block(b.size, true)], post);
    var l, c, r := Before(p, pre, true), Here(p, pre, b), Behind(p, pre, b, post, true);
    BlockInPage(p, pre, b, post);
    FlipSound(p, pre, b, post);
    LiveAt(p, pre, b, post);
    FreeAt(q, pre, d, post);
    PageCells(q, true);
    LiveAround(mem, Before(p, pre, false), c, Behind(p, pre, b, post, false));
    GiveLinks(mem, l, c, r);
    NotLive(q, pre, d, post);
    var m := GiveMem(mem, a, Last(l), First(r));
    FirstIsHead(l, c, r);
    LiveKept(mem, m, q, a);
    TouchesOnlyPage(mem, m, q, a);
  }

  lemma GiveLinks(mem: Memory, l: seq<Cell>, c: Cell, r: seq<Cell>)
    requires CellChain(mem, l + r) && DistinctCells(l + [c] + r) && LiveCell(mem, c)
    ensures (Last(l) != NULL ==> Last(l) in mem) && (First(r) != NULL ==> First(r) in mem)
    ensures CellChain(GiveMem(mem, c.addr, Last(l), First(r)), l + [c] + r)
    ensures Touches(GiveMem(mem, c.addr, Last(l), First(r)), mem, l + [c] + r, c.addr)
  {
    DistinctParts(l, [c], r);
    assert [c][0] == c;
    var m1 := mem[c.addr := mem[c.addr].(magic := 0)];
    ChainElsewhere(mem, m1, l + r);
    Inserted(m1, l, c, r);
    LinksAreMembers(l, [c], r);
  }

  // ---- joining two free neighbours ----

  lemma SizedJoin(pre: seq<Block>, b: Block, c: Block, post: seq<Block>)
    requires Sized(pre + [b, c] + post)
    ensures Sized(pre + [Block(b.size + c.size, true)] + post)
  {
    Indices(pre, [b, c], post);
    var d := Block(b.size + c.size, true);
    Indices(pre, [d], post);
    var s, t := pre + [b, c] + post, pre + [d] + post;
    assert s[|pre|] == b && s[|pre| + 1] == c && t[|pre|] == d;
    assert forall i :: 0 <= i < |t| && i != |pre| ==> t[i] == s[if i < |pre| then i else i + 1];
  }

  lemma JoinSound(p: Page, pre: seq<Block>, b: Block, c: Block, post: seq<Block>)
    requires PageSound(p) && p.blocks == pre + [b, c] + post
    ensures PageSound(With(p, pre, [Block(b.size + c.size, true)], post))
    ensures InPage(p, Start(p) + Length(pre)) && Start(p) + Length(pre) != NULL
  {
    var d := Block(b.size + c.size, true);
    SizedJoin(pre, b, c, post);
    PairCells(Start(p), pre, b, c, post, true);
    CellsAround(Start(p), pre, d, post, true);
    BlockInPage(With(p, pre, [d], post), pre, d, post);
  }

  /** Two free neighbours in a page. */
  lemma PairAt(p: Page, pre: seq<Block>, b: Block, c: Block, post: seq<Block>)
    requires PageSound(p) && p.blocks == pre + [b, c] + post && b.free && c.free
    ensures var a, q := Start(p) + Length(pre), With(p, pre, [Block(b.size + c.size, true)], post);
      var l, r := Before(p, pre, true), Cells(a + b.size + c.size, post, true);
      && FreeOf(p) == l + [Cell(a, b.size), Cell(a + b.size, c.size)] + r
      && FreeOf(q) == l + [Cell(a, b.size + c.size)] + r
      && LiveOf(q) == LiveOf(p) && Total(FreeOf(q)) == Total(FreeOf(p)) && First(FreeOf(q)) == First(FreeOf(p))
  {
    hide Cells, Length, Total, PageSound;
    var a, d, q := Start(p) + Length(pre), Block(b.size + c.size, true), With(p, pre, [Block(b.size + c.size, true)], post);
    var l, r := Before(p, pre, true), Cells(a + b.size + c.size, post, true);
    var c1, c2, cc := Cell(a, b.size), Cell(a + b.size, c.size), Cell(a, b.size + c.size);
    PairCells(Start(p), pre, b, c, post, true);
    PairCells(Start(p), pre, b, c, post, false);
    CellsAround(Start(p), pre, d, post, true);
    CellsAround(Start(p), pre, d, post, false);
    assert [c1] + [c2] == [c1, c2];
    TotalAround(l, [c1, c2], r);
    TotalAround(l, [cc], r);
    TotalConcat([c1], [c2]);
    TotalOf(c1);
    TotalOf(c2);
    TotalOf(cc);
    FirstAround(l, [c1, c2], r);
    FirstAround(l, [cc], r);
  }

  lemma JoinStep(mem: Memory, p: Page, pre: seq<Block>, b: Block, c: Block, post: seq<Block>)
    requires PageSound(p) && InMemory(mem, p) && p.blocks == pre + [b, c] + post && b.free && c.free
    ensures var a, q := Start(p) + Length(pre), With(p, pre, [Block(b.size + c.size, true)], post);
      && a in mem && mem[a].size == b.size && mem[a].next == a + b.size
      && a + b.size in mem && (mem[a + b.size].next != NULL ==> mem[a + b.size].next in mem)
      && var m := JoinMem(mem, a, a + b.size);
      && PageSound(q) && InMemory(m, q) && OnlyIn(m, mem, p)
      && Total(FreeOf(q)) == Total(FreeOf(p)) && First(FreeOf(q)) == First(FreeOf(p)) && LiveOf(q) == LiveOf(p)
  {
    hide Cells, CellChain, Total, Length, Sorted, PageSound, LiveCells, JoinMem;
    JoinSound(p, pre, b, c, post);
    PairAt(p, pre, b, c, post);
    PageCells(p, true);
    var a := Start(p) + Length(pre);
    var l, r := Before(p, pre, true), Cells(a + b.size + c.size, post, true);
    var c1, c2 := Cell(a, b.size), Cell(a + b.size, c.size);
    Joined(mem, l, c1, c2, r);
    FreeNotLive(p, |l|);
    assert FreeOf(p)[|l|] == c1;
    LiveKept(mem, JoinMem(mem, a, a + b.size), p, a);
    TouchesOnlyPage(mem, JoinMem(mem, a, a + b.size), p, a);
  }

  lemma FreeNotLive(p: Page, i: nat)
    requires PageSound(p) && i < |FreeOf(p)|
    ensures forall j :: 0 <= j < |LiveOf(p)| ==> LiveOf(p)[j].addr != FreeOf(p)[i].addr
  {
    forall j | 0 <= j < |LiveOf(p)| ensures LiveOf(p)[j].addr != FreeOf(p)[i].addr {
      FreeLiveApart(Start(p), p.blocks, i, j);
    }
  }
}
