/** A SLOB page as a value: the blocks that tile it, in address order, each free or handed out. */
module SlobPages {

  const PAGE_SIZE: nat := 4096
  /** sizeof(struct slob_page) and sizeof(struct slob_block) on the 32-bit target. */
  const PAGE_HEADER: nat := 28
  const BLOCK_HEADER: nat := 16
  const MIN_ALLOC: nat := 16
  const MAX_ALLOC: nat := 512
  const ALIGN: nat := 8
  const SPACE: nat := PAGE_SIZE - PAGE_HEADER
  const MIN_BLOCK: nat := MIN_ALLOC + BLOCK_HEADER

  datatype Block = Block(size: nat, free: bool)

  /** A block at its address. */
  datatype Cell = Cell(addr: nat, size: nat)

  function Length(blocks: seq<Block>): nat {
    if blocks == [] then 0 else blocks[0].size + Length(blocks[1..])
  }

  /** The free blocks, or those handed out, of a run of blocks that starts at an address. */
  function Cells(start: nat, blocks: seq<Block>, free: bool): seq<Cell>
    decreases |blocks|
  {
    if blocks == [] then []
    else (if blocks[0].free == free then [Cell(start, blocks[0].size)] else [])
         + Cells(start + blocks[0].size, blocks[1..], free)
  }

  function Total(cells: seq<Cell>): nat {
    if cells == [] then 0 else cells[0].size + Total(cells[1..])
  }

  ghost predicate TwoFree(blocks: seq<Block>, i: nat)
    requires i + 1 < |blocks|
  {
    blocks[i].free && blocks[i + 1].free
  }

  ghost predicate Separated(blocks: seq<Block>) {
    forall i {:trigger TwoFree(blocks, i)} :: 0 <= i < |blocks| - 1 ==> !TwoFree(blocks, i)
  }

  /** Block sizes: at least a header and the smallest payload; multiples of 8 but for the last one,
      which ends at the end of the page. */
  ghost predicate Sized(blocks: seq<Block>) {
    && (forall i :: 0 <= i < |blocks| ==> blocks[i].size >= MIN_BLOCK)
    && (forall i :: 0 <= i < |blocks| - 1 ==> blocks[i].size % ALIGN == 0)
  }

  ghost predicate PageOk(blocks: seq<Block>) {
    Length(blocks) == SPACE && Sized(blocks) && Separated(blocks)
  }

  // ---- concatenation ----

  lemma {:induction false} LengthConcat(a: seq<Block>, b: seq<Block>)
    ensures Length(a + b) == Length(a) + Length(b)
  {
    if a == [] {
      assert a + b == b;
    } else {
      assert (a + b)[1..] == a[1..] + b;
      LengthConcat(a[1..], b);
    }
  }

  /** What one block adds to the cells. */
  function CellOf(start: nat, b: Block, free: bool): seq<Cell> {
    if b.free == free then [Cell(start, b.size)] else []
  }

  lemma CellsFirst(start: nat, blocks: seq<Block>, free: bool)
    requires blocks != []
    ensures Cells(start, blocks, free) == CellOf(start, blocks[0], free) + Cells(start + blocks[0].size, blocks[1..], free)
    ensures Length(blocks) == blocks[0].size + Length(blocks[1..])
  {
  }

  lemma {:induction false} CellsConcat(start: nat, a: seq<Block>, b: seq<Block>, free: bool)
    ensures Cells(start, a + b, free) == Cells(start, a, free) + Cells(start + Length(a), b, free)
    decreases |a|
  {
    if a == [] {
      assert a + b == b;
    } else {
      assert (a + b)[1..] == a[1..] + b && (a + b)[0] == a[0];
      CellsConcat(start + a[0].size, a[1..], b, free);
      CellsFirst(start, a, free);
      CellsFirst(start, a + b, free);
      hide Cells, Length, CellOf;
    }
  }

  lemma {:induction false} TotalConcat(a: seq<Cell>, b: seq<Cell>)
    ensures Total(a + b) == Total(a) + Total(b)
  {
    if a == [] {
      assert a + b == b;
    } else {
      assert (a + b)[1..] == a[1..] + b;
      TotalConcat(a[1..], b);
    }
  }

  /** Free and handed-out bytes make up all bytes. */
  lemma {:induction false} TotalsAddUp(start: nat, blocks: seq<Block>)
    ensures Total(Cells(start, blocks, true)) + Total(Cells(start, blocks, false)) == Length(blocks)
    decreases |blocks|
  {
    if blocks != [] {
      var b, rest := blocks[0], start + blocks[0].size;
      TotalsAddUp(rest, blocks[1..]);
      TotalConcat([Cell(start, b.size)], Cells(rest, blocks[1..], b.free));
      assert Total([Cell(start, b.size)]) == b.size;
      assert [] + Cells(rest, blocks[1..], !b.free) == Cells(rest, blocks[1..], !b.free);
    }
  }

  /** The cells of pre + [b] + post. */
  lemma CellsAround(start: nat, pre: seq<Block>, b: Block, post: seq<Block>, free: bool)
    ensures Cells(start, pre + [b] + post, free)
      == Cells(start, pre, free) + CellOf(start + Length(pre), b, free)
         + Cells(start + Length(pre) + b.size, post, free)
    ensures Length(pre + [b] + post) == Length(pre) + b.size + Length(post)
  {
    CellsConcat(start, pre + [b], post, free);
    CellsConcat(start, pre, [b], free);
    CellsOne(start + Length(pre), b, free);
    LengthConcat(pre + [b], post);
    LengthConcat(pre, [b]);
    hide Cells, Length, CellOf;
  }

  lemma CellsOne(start: nat, b: Block, free: bool)
    ensures Cells(start, [b], free) == CellOf(start, b, free) && Length([b]) == b.size
  {
    assert [b][1..] == [];
  }

  // ---- where cells lie ----

  ghost predicate Sorted(cells: seq<Cell>, from: nat, to: nat) {
    && (forall i :: 0 <= i < |cells| ==> from <= cells[i].addr && cells[i].addr + cells[i].size <= to)
    && (forall i, j :: 0 <= i < j < |cells| ==> cells[i].addr + cells[i].size <= cells[j].addr)
  }

  lemma {:induction false} CellsSorted(start: nat, blocks: seq<Block>, free: bool)
    ensures Sorted(Cells(start, blocks, free), start, start + Length(blocks))
    decreases |blocks|
  {
    if blocks != [] { CellsSorted(start + blocks[0].size, blocks[1..], free); }
  }

  lemma SizedTail(start: nat, blocks: seq<Block>)
    requires Sized(blocks) && |blocks| > 1 && start % ALIGN == 0
    ensures Sized(blocks[1..]) && blocks[0].size >= MIN_BLOCK && (start + blocks[0].size) % ALIGN == 0
  {
    assert forall i :: 0 <= i < |blocks[1..]| ==> blocks[1..][i] == blocks[i + 1];
  }

  lemma {:induction false} CellsAligned(start: nat, blocks: seq<Block>, free: bool)
    requires Sized(blocks) && start % ALIGN == 0
    ensures forall i :: 0 <= i < |Cells(start, blocks, free)| ==> Cells(start, blocks, free)[i].addr % ALIGN == 0
    ensures forall i :: 0 <= i < |Cells(start, blocks, free)| ==> Cells(start, blocks, free)[i].size >= MIN_BLOCK
    decreases |blocks|
  {
    if |blocks| == 1 {
      CellsOne(start, blocks[0], free);
      assert blocks == [blocks[0]];
    } else if blocks != [] {
      SizedTail(start, blocks);
      hide Sized, Cells;
      CellsFirst(start, blocks, free);
      CellsAligned(start + blocks[0].size, blocks[1..], free);
    }
  }

  // ---- allocation: place a request in a free block ----

  /** The block size for a request of `size` bytes: rounded up to 8, at least 16, plus the header. */
  function Need(size: nat): (n: nat)
    ensures n % ALIGN == 0 && n >= MIN_BLOCK && n >= size + BLOCK_HEADER
  {
    var aligned := (size + 7) / 8 * 8;
    (if aligned < MIN_ALLOC then MIN_ALLOC else aligned) + BLOCK_HEADER
  }

  /** No smaller multiple of 8 that is at least 32 holds `size` bytes and a header of 16. */
  lemma NeedIsLeast(size: nat, m: nat)
    requires m % 8 == 0 && m >= 32 && m >= size + 16
    ensures Need(size) <= m && Need(size) % 8 == 0 && Need(size) >= 32 && Need(size) >= size + 16
  {
  }

  predicate Splits(b: Block, need: nat) {
    b.size > need + BLOCK_HEADER + MIN_ALLOC
  }

  /** The blocks that a free block b becomes when `need` bytes are taken from it. */
  function Carved(b: Block, need: nat): seq<Block>
    requires b.size >= need
  {
    if Splits(b, need) then [Block(need, false), Block(b.size - need, true)] else [Block(b.size, false)]
  }

  function Place(pre: seq<Block>, b: Block, post: seq<Block>, need: nat): seq<Block>
    requires b.size >= need
  {
    pre + Carved(b, need) + post
  }

  /** What is cut off: with more than 32 bytes to spare the block handed out has exactly the size needed and
      the rest stays one free block; otherwise all of b is handed out. */
  lemma PlaceCuts(pre: seq<Block>, b: Block, post: seq<Block>, need: nat)
    requires b.size >= need
    ensures Place(pre, b, post, need)
      == if b.size > need + 32 then pre + [Block(need, false), Block(b.size - need, true)] + post
         else pre + [Block(b.size, false)] + post
  {
  }

  lemma Indices(pre: seq<Block>, mid: seq<Block>, post: seq<Block>)
    ensures var t := pre + mid + post;
            && (forall i :: 0 <= i < |t| ==> t[i] == if i < |pre| then pre[i]
                 else if i < |pre| + |mid| then mid[i - |pre|] else post[i - |pre| - |mid|])
  {
  }

  /** Sizes stay in order when a block is replaced by blocks that fill the same bytes, end alike, and
      are in order themselves. */
  lemma SizedReplace(pre: seq<Block>, b: Block, post: seq<Block>, mid: seq<Block>)
    requires Sized(pre + [b] + post) && mid != [] && Sized(mid)
    requires mid[|mid| - 1].size % ALIGN == b.size % ALIGN
    ensures Sized(pre + mid + post)
  {
    Indices(pre, [b], post);
    Indices(pre, mid, post);
    var s, t := pre + [b] + post, pre + mid + post;
    forall i | 0 <= i < |t| ensures t[i].size >= MIN_BLOCK && (i < |t| - 1 ==> t[i].size % ALIGN == 0) {
      if i < |pre| {
        assert s[i] == t[i];
      } else if i < |pre| + |mid| {
        assert s[|pre|] == b;
      } else {
        assert s[i - |mid| + 1] == t[i];
      }
    }
  }

  lemma SeparatedReplace(pre: seq<Block>, b: Block, post: seq<Block>, mid: seq<Block>)
    requires Separated(pre + [b] + post) && mid != [] && Separated(mid) && b.free
    ensures Separated(pre + mid + post)
  {
    Indices(pre, [b], post);
    Indices(pre, mid, post);
    var s, t := pre + [b] + post, pre + mid + post;
    forall i: nat | i < |t| - 1 ensures !TwoFree(t, i) {
      if i + 1 <= |pre| {
        assert !TwoFree(s, i);
      } else if i + 1 < |pre| + |mid| {
        assert !TwoFree(mid, i - |pre|);
      } else {
        assert !TwoFree(s, i + 1 - |mid|);
      }
    }
  }

  lemma CarvedLength(b: Block, need: nat)
    requires b.size >= need
    ensures Length(Carved(b, need)) == b.size
  {
    var mid := Carved(b, need);
    if Splits(b, need) {
      var rest := [Block(b.size - need, true)];
      assert mid[1..] == rest && rest[1..] == [];
      assert Length(rest) == b.size - need;
    } else {
      assert mid[1..] == [];
    }
  }

  lemma PlaceKeeps(pre: seq<Block>, b: Block, post: seq<Block>, need: nat)
    requires PageOk(pre + [b] + post) && b.free && b.size >= need >= MIN_BLOCK && need % ALIGN == 0
    ensures PageOk(Place(pre, b, post, need))
  {
    var mid := Carved(b, need);
    CarvedParts(pre, b, post, need);
    CarvedLength(b, need);
    LengthReplace(pre, b, post, mid);
    hide Sized, Separated, Length, Carved;
    SizedReplace(pre, b, post, mid);
    SeparatedReplace(pre, b, post, mid);
  }

  lemma CarvedParts(pre: seq<Block>, b: Block, post: seq<Block>, need: nat)
    requires Sized(pre + [b] + post) && b.free && b.size >= need >= MIN_BLOCK && need % ALIGN == 0
    ensures var mid := Carved(b, need);
      mid != [] && Sized(mid) && Separated(mid) && mid[|mid| - 1].size % ALIGN == b.size % ALIGN
  {
    Indices(pre, [b], post);
    assert (pre + [b] + post)[|pre|] == b;
  }

  lemma LengthReplace(pre: seq<Block>, b: Block, post: seq<Block>, mid: seq<Block>)
    ensures Length(pre + mid + post) - Length(mid) == Length(pre + [b] + post) - b.size
  {
    LengthConcat(pre + mid, post);
    LengthConcat(pre, mid);
    LengthConcat(pre + [b], post);
    LengthConcat(pre, [b]);
    LengthOne(b);
  }

  lemma LengthOne(b: Block)
    ensures Length([b]) == b.size
  {
    assert [b][1..] == [];
  }

  // ---- freeing: the block joins its free neighbours ----

  /** One pass over the page that joins touching free blocks. */
  function Merge(blocks: seq<Block>): seq<Block>
    decreases |blocks|
  {
    if |blocks| < 2 then blocks
    else if blocks[0].free && blocks[1].free
    then Merge([Block(blocks[0].size + blocks[1].size, true)] + blocks[2..])
    else [blocks[0]] + Merge(blocks[1..])
  }

  lemma {:induction false} MergeKeepsLive(start: nat, blocks: seq<Block>)
    ensures Cells(start, Merge(blocks), false) == Cells(start, blocks, false)
    ensures Length(Merge(blocks)) == Length(blocks)
    decreases |blocks|
  {
    if |blocks| >= 2 {
      if blocks[0].free && blocks[1].free {
        var m := [Block(blocks[0].size + blocks[1].size, true)] + blocks[2..];
        MergeKeepsLive(start, m);
        assert m[1..] == blocks[2..] && blocks[1..][1..] == blocks[2..] && blocks[1..][0] == blocks[1];
      } else {
        MergeKeepsLive(start + blocks[0].size, blocks[1..]);
        assert ([blocks[0]] + Merge(blocks[1..]))[1..] == Merge(blocks[1..]);
      }
    }
  }

  lemma SeparatedCons(b: Block, m: seq<Block>)
    requires Separated(m) && (m != [] ==> !(b.free && m[0].free))
    ensures Separated([b] + m)
  {
    var t := [b] + m;
    forall i: nat | i < |t| - 1 ensures !TwoFree(t, i) { assert i > 0 ==> !TwoFree(m, i - 1); }
  }

  lemma SeparatedTail(blocks: seq<Block>)
    requires Separated(blocks) && blocks != []
    ensures Separated(blocks[1..]) && (|blocks| >= 2 ==> !(blocks[0].free && blocks[1].free))
  {
    var t := blocks[1..];
    assert |blocks| >= 2 ==> !TwoFree(blocks, 0);
    forall i: nat | i < |t| - 1 ensures !TwoFree(t, i) { assert !TwoFree(blocks, i + 1); }
  }

  lemma {:induction false} MergeSeparates(blocks: seq<Block>)
    ensures Separated(Merge(blocks))
    ensures blocks != [] ==> Merge(blocks) != [] && Merge(blocks)[0].free == blocks[0].free
    decreases |blocks|
  {
    if |blocks| >= 2 {
      if blocks[0].free && blocks[1].free {
        MergeSeparates([Block(blocks[0].size + blocks[1].size, true)] + blocks[2..]);
      } else {
        MergeSeparates(blocks[1..]);
        SeparatedCons(blocks[0], Merge(blocks[1..]));
      }
    }
  }

  lemma {:induction false} MergeKeepsSizes(blocks: seq<Block>)
    requires Sized(blocks)
    ensures Sized(Merge(blocks))
    decreases |blocks|
  {
    if |blocks| >= 2 {
      assert forall i :: 0 <= i < |blocks| - 1 ==> blocks[1..][i] == blocks[i + 1];
      if blocks[0].free && blocks[1].free {
        var m := [Block(blocks[0].size + blocks[1].size, true)] + blocks[2..];
        assert forall i :: 1 <= i < |m| ==> m[i] == blocks[i + 1];
        MergeKeepsSizes(m);
      } else {
        MergeKeepsSizes(blocks[1..]);
        var m := Merge(blocks[1..]);
        var t := [blocks[0]] + m;
        assert forall i :: 1 <= i < |t| ==> t[i] == m[i - 1];
      }
    }
  }

  /** Merging a page that is already separated changes nothing. */
  lemma {:induction false} MergeIsIdle(blocks: seq<Block>)
    requires Separated(blocks)
    ensures Merge(blocks) == blocks
    decreases |blocks|
  {
    if |blocks| >= 2 {
      SeparatedTail(blocks);
      MergeIsIdle(blocks[1..]);
    }
  }

  /** The page after block b, between pre and post, is given back. */
  function Freed(pre: seq<Block>, b: Block, post: seq<Block>): seq<Block> {
    Merge(pre + [b.(free := true)] + post)
  }

  lemma FreedKeeps(pre: seq<Block>, b: Block, post: seq<Block>)
    requires PageOk(pre + [b] + post)
    ensures PageOk(Freed(pre, b, post))
  {
    var c := b.(free := true);
    var t := pre + [c] + post;
    Indices(pre, [b], post);
    assert (pre + [b] + post)[|pre|] == b;
    SizedReplace(pre, b, post, [c]);
    LengthConcat(pre + [c], post);
    LengthConcat(pre, [c]);
    LengthConcat(pre + [b], post);
    LengthConcat(pre, [b]);
    assert [b][1..] == [] && [c][1..] == [];
    MergeKeepsLive(0, t);
    MergeSeparates(t);
    MergeKeepsSizes(t);
  }

  // ---- release of a page ----

  /** A separated page without handed-out blocks is one free block. */
  lemma AllFreeIsOneBlock(start: nat, blocks: seq<Block>)
    requires PageOk(blocks) && Total(Cells(start, blocks, true)) == SPACE
    ensures blocks == [Block(SPACE, true)]
  {
    TotalsAddUp(start, blocks);
    if blocks != [] { SeparatedTail(blocks); }
    NoneHandedOut(start, blocks);
    assert blocks == [blocks[0]];
    assert blocks[1..] == [];
  }

  lemma {:induction false} NoneHandedOut(start: nat, blocks: seq<Block>)
    requires Total(Cells(start, blocks, false)) == 0
    requires forall i :: 0 <= i < |blocks| ==> blocks[i].size > 0
    ensures forall i :: 0 <= i < |blocks| ==> blocks[i].free
    decreases |blocks|
  {
    if blocks != [] {
      var rest := Cells(start + blocks[0].size, blocks[1..], false);
      TotalConcat(CellOf(start, blocks[0], false), rest);
      assert Total([Cell(start, blocks[0].size)]) == blocks[0].size;
      assert [] + rest == rest;
      NoneHandedOut(start + blocks[0].size, blocks[1..]);
      assert forall i :: 1 <= i < |blocks| ==> blocks[i] == blocks[1..][i - 1];
    }
  }

  // ---- finding a block again from its cell ----

  lemma {:induction false} CellBlock(start: nat, blocks: seq<Block>, free: bool, k: nat)
    returns (pre: seq<Block>, b: Block, post: seq<Block>)
    requires k < |Cells(start, blocks, free)|
    ensures blocks == pre + [b] + post && b.free == free && |Cells(start, pre, free)| == k
    ensures Cells(start, blocks, free)[k] == Cell(start + Length(pre), b.size)
    decreases |blocks|
  {
    var d := blocks[0];
    var head := CellOf(start, d, free);
    assert Cells(start, blocks, free) == head + Cells(start + d.size, blocks[1..], free);
    if d.free == free && k == 0 {
      pre, b, post := [], d, blocks[1..];
    } else {
      var p;
      p, b, post := CellBlock(start + d.size, blocks[1..], free, k - |head|);
      pre := [d] + p;
      assert pre[1..] == p;
      assert blocks == [d] + blocks[1..];
    }
  }

  /** Free and handed-out blocks never share an address. */
  lemma {:induction false} FreeLiveApart(start: nat, blocks: seq<Block>, i: nat, j: nat)
    requires i < |Cells(start, blocks, true)| && j < |Cells(start, blocks, false)|
    requires forall k :: 0 <= k < |blocks| ==> blocks[k].size > 0
    ensures Cells(start, blocks, true)[i].addr != Cells(start, blocks, false)[j].addr
    decreases |blocks|
  {
    var b := blocks[0];
    var rest := start + b.size;
    CellsSorted(rest, blocks[1..], true);
    CellsSorted(rest, blocks[1..], false);
    var n := if b.free then 1 else 0;
    assert Cells(start, blocks, true) == CellOf(start, b, true) + Cells(rest, blocks[1..], true);
    assert Cells(start, blocks, false) == CellOf(start, b, false) + Cells(rest, blocks[1..], false);
    if i >= n && j >= 1 - n { FreeLiveApart(rest, blocks[1..], i - n, j - (1 - n)); }
  }

  /** Cells of positive size have different addresses. */
  lemma CellsDistinct(start: nat, blocks: seq<Block>, free: bool)
    requires Sized(blocks)
    ensures var c := Cells(start, blocks, free);
      forall i, j :: 0 <= i < j < |c| ==> c[i].addr < c[j].addr
    ensures forall i :: 0 <= i < |Cells(start, blocks, free)| ==> Cells(start, blocks, free)[i].size >= MIN_BLOCK
  {
    CellsSorted(start, blocks, free);
    CellsBig(start, blocks, free);
  }

  lemma {:induction false} CellsBig(start: nat, blocks: seq<Block>, free: bool)
    requires forall i :: 0 <= i < |blocks| ==> blocks[i].size >= MIN_BLOCK
    ensures forall i :: 0 <= i < |Cells(start, blocks, free)| ==> Cells(start, blocks, free)[i].size >= MIN_BLOCK
    decreases |blocks|
  {
    if blocks != [] { CellsBig(start + blocks[0].size, blocks[1..], free); }
  }

  /** No block starts inside another. */
  lemma {:induction false} NothingInside(start: nat, pre: seq<Block>, b: Block, post: seq<Block>, x: nat, free: bool)
    requires start + Length(pre) < x < start + Length(pre) + b.size
    ensures var c := Cells(start, pre + [b] + post, free);
      forall i :: 0 <= i < |c| ==> c[i].addr != x
    decreases |pre|
  {
    var all := pre + [b] + post;
    var rest := start + all[0].size;
    assert Cells(start, all, free) == CellOf(start, all[0], free) + Cells(rest, all[1..], free);
    if pre == [] {
      assert all[0] == b && all[1..] == post;
      CellsSorted(rest, post, free);
    } else {
      assert all[0] == pre[0] && all[1..] == pre[1..] + [b] + post;
      NothingInside(rest, pre[1..], b, post, x, free);
    }
  }
}
