/** The doubly linked list of SLOB pages, and the merge of one page as the code walks it. */
module SlobLists {
  import opened SlobPages
  import opened SlobHeaders
  import opened SlobState
  import opened Wrappers

  // ---- one page replaced ----

  /** Writing the free size and the free list head of a page. */
  function PageUpdate(pmem: PageMemory, base: nat, freeSize: nat, freeList: nat): PageMemory
    requires base in pmem
  {
    pmem[base := pmem[base].(freeSize := freeSize, freeList := freeList)]
  }

  /** A sound change of one page is a sound change of the whole list. */
  lemma PageReplaced(mem: Memory, pmem: PageMemory, view: seq<Page>, i: nat, m: Memory, q: Page)
    requires Consistent(mem, pmem, view) && i < |view| && q.base == view[i].base
    requires PageSound(q) && InMemory(m, q) && OnlyIn(m, mem, view[i])
    ensures q.base in pmem && pmem[q.base].freeSize == Total(FreeOf(view[i]))
    ensures pmem[q.base].freeList == First(FreeOf(view[i]))
    ensures Consistent(m, PageUpdate(pmem, q.base, Total(FreeOf(q)), First(FreeOf(q))), view[i := q])
  {
    hide PageSound, InMemory, Cells, Total, OnlyIn;
    assert PageLinked(pmem, view, i);
    var pm, w := PageUpdate(pmem, q.base, Total(FreeOf(q)), First(FreeOf(q))), view[i := q];
    forall j: nat | j < |w| ensures PageLinked(pm, w, j) && PageSound(w[j]) && InMemory(m, w[j]) {
      assert PageLinked(pmem, view, j);
      assert BaseAt(w, j + 1) == BaseAt(view, j + 1) && BaseAt(w, j - 1) == BaseAt(view, j - 1);
      if j != i {
        assert w[j] == view[j];
        OtherPageKept(mem, m, view, i, j);
      }
    }
  }

  lemma OtherPageKept(mem: Memory, m: Memory, view: seq<Page>, i: nat, j: nat)
    requires AllValid(mem, view) && Apart(view) && i < |view| && j < |view| && i != j && OnlyIn(m, mem, view[i])
    ensures InMemory(m, view[j])
  {
    hide InMemory;
    var p, q := view[i], view[j];
    assert p.base != q.base;
    forall a | a in mem && InPage(q, a) ensures a in m && m[a] == mem[a] { PagesDisjoint(q, p, a); }
    ElsewhereKept(mem, m, q);
  }

  // ---- a page added and a page removed ----

  lemma PagePushed(mem: Memory, pmem: PageMemory, view: seq<Page>, m: Memory, pm: PageMemory, p: Page)
    requires Consistent(mem, pmem, view) && PageSound(p) && InMemory(m, p) && OnlyIn(m, mem, p)
    requires forall i :: 0 <= i < |view| ==> view[i].base != p.base
    requires p.base in pm && pm[p.base] == PageHeader(Total(FreeOf(p)), First(FreeOf(p)), BaseAt(view, 0), NULL)
    requires forall i: nat :: i < |view| ==> view[i].base in pmem && view[i].base in pm
    requires forall i: nat :: i < |view| ==>
      pm[view[i].base] == if i == 0 then pmem[view[i].base].(prev := p.base) else pmem[view[i].base]
    ensures Consistent(m, pm, [p] + view)
  {
    hide PageSound, InMemory, Cells, Total, OnlyIn;
    var w := [p] + view;
    forall j: nat | j < |w| ensures PageLinked(pm, w, j) && PageSound(w[j]) && InMemory(m, w[j]) {
      if j > 0 {
        assert w[j] == view[j - 1] && PageLinked(pmem, view, j - 1);
        assert BaseAt(w, j + 1) == BaseAt(view, j) && (j > 1 ==> BaseAt(w, j - 1) == BaseAt(view, j - 2));
        FreshPageKeeps(mem, m, p, view[j - 1]);
      } else {
        assert BaseAt(w, 1) == BaseAt(view, 0) && w[0] == p;
      }
    }
  }

  lemma FreshPageKeeps(mem: Memory, m: Memory, p: Page, q: Page)
    requires PageSound(p) && PageSound(q) && p.base != q.base && InMemory(mem, q) && OnlyIn(m, mem, p)
    ensures InMemory(m, q)
  {
    hide InMemory;
    forall a | a in mem && InPage(q, a) ensures a in m && m[a] == mem[a] { PagesDisjoint(q, p, a); }
    ElsewhereKept(mem, m, q);
  }

  function PageSetNext(pm: PageMemory, a: nat, x: nat): PageMemory
    requires a != NULL ==> a in pm
  {
    if a == NULL then pm else pm[a := pm[a].(next := x)]
  }

  function PageSetPrev(pm: PageMemory, a: nat, x: nat): PageMemory
    requires a != NULL ==> a in pm
  {
    if a == NULL then pm else pm[a := pm[a].(prev := x)]
  }

  /** The page list with the links around page i bridged. */
  function Bridged(pm: PageMemory, prev: nat, next: nat): PageMemory
    requires (prev != NULL ==> prev in pm) && (next != NULL ==> next in pm)
  {
    PageSetPrev(PageSetNext(pm, prev, next), next, prev)
  }

  lemma BridgedAt(pm: PageMemory, view: seq<Page>, i: nat, k: nat)
    requires PagesLinked(pm, view) && Apart(view) && i < |view| && k < |view| && k != i
    requires forall j :: 0 <= j < |view| ==> view[j].base != NULL
    ensures var prev, next := BaseAt(view, i - 1), BaseAt(view, i + 1);
      && (prev != NULL ==> prev in pm) && (next != NULL ==> next in pm) && view[k].base in pm
      && view[k].base in Bridged(pm, prev, next)
      && Bridged(pm, prev, next)[view[k].base] == pm[view[k].base].(next := if k + 1 == i then next else BaseAt(view, k + 1),
                                              prev := if k == i + 1 then prev else BaseAt(view, k - 1))
  {
    hide FreeOf, Total, First;
    if i > 0 { assert PageLinked(pm, view, i - 1); }
    if i + 1 < |view| { assert PageLinked(pm, view, i + 1); }
    assert PageLinked(pm, view, k);
  }

  lemma PageDropped(mem: Memory, pmem: PageMemory, view: seq<Page>, i: nat)
    requires Consistent(mem, pmem, view) && i < |view|
    ensures var prev, next := BaseAt(view, i - 1), BaseAt(view, i + 1);
      && (prev != NULL ==> prev in pmem) && (next != NULL ==> next in pmem)
      && Consistent(mem, Bridged(pmem, prev, next), Without(view, i))
  {
    hide PageSound, InMemory, FreeOf, Total, First, Bridged;
    var prev, next, w := BaseAt(view, i - 1), BaseAt(view, i + 1), Without(view, i);
    if i > 0 { assert PageLinked(pmem, view, i - 1); }
    if i + 1 < |view| { assert PageLinked(pmem, view, i + 1); }
    BasesPositive(mem, view);
    var pm := Bridged(pmem, prev, next);
    hide PageLinked, BaseAt;
    forall j: nat | j < |w| ensures PageLinked(pm, w, j) && PageSound(w[j]) && InMemory(mem, w[j]) {
      assert w[j] == view[if j < i then j else j + 1];
      LinkDropped(pmem, view, i, j);
    }
    ApartWithout(view, i);
    hide Apart, Without;
  }

  lemma ApartWithout(view: seq<Page>, i: nat)
    requires Apart(view) && i < |view|
    ensures Apart(Without(view, i))
  {
    var w := Without(view, i);
    forall j, k | 0 <= j < k < |w| ensures w[j].base != w[k].base {
      assert w[j] == view[if j < i then j else j + 1] && w[k] == view[if k < i then k else k + 1];
    }
  }

  lemma LinkDropped(pmem: PageMemory, view: seq<Page>, i: nat, j: nat)
    requires PagesLinked(pmem, view) && Apart(view) && i < |view| && j + 1 < |view|
    requires forall j :: 0 <= j < |view| ==> view[j].base != NULL
    requires (i > 0 ==> view[i - 1].base in pmem) && (i + 1 < |view| ==> view[i + 1].base in pmem)
    ensures PageLinked(Bridged(pmem, BaseAt(view, i - 1), BaseAt(view, i + 1)), Without(view, i), j)
  {
    hide FreeOf, Total, First, Bridged;
    var prev, next, w := BaseAt(view, i - 1), BaseAt(view, i + 1), Without(view, i);
    var k := if j < i then j else j + 1;
    assert w[j] == view[k];
    BridgedAt(pmem, view, i, k);
    assert PageLinked(pmem, view, k);
    assert BaseAt(w, j + 1) == if j + 1 == i then next else BaseAt(view, k + 1);
    assert BaseAt(w, j - 1) == if j == i then prev else BaseAt(view, k - 1);
  }

  lemma BasesPositive(mem: Memory, view: seq<Page>)
    requires AllValid(mem, view)
    ensures forall j :: 0 <= j < |view| ==> view[j].base != NULL
  {
  }

  // ---- bytes handed out ----

  lemma {:induction false} LiveBytesConcat(a: seq<Page>, b: seq<Page>)
    ensures LiveBytes(a + b) == LiveBytes(a) + LiveBytes(b)
  {
    if a == [] {
      assert a + b == b;
    } else {
      assert (a + b)[1..] == a[1..] + b;
      LiveBytesConcat(a[1..], b);
    }
  }

  lemma LiveBytesAt(view: seq<Page>, i: nat, q: Page)
    requires i < |view|
    ensures LiveBytes(view) == LiveBytes(Without(view, i)) + Total(LiveOf(view[i]))
    ensures LiveBytes(view[i := q]) == LiveBytes(Without(view, i)) + Total(LiveOf(q))
  {
    hide Cells, Total;
    var a, b := view[..i], view[i + 1..];
    assert view == a + ([view[i]] + b) && view[i := q] == a + ([q] + b);
    LiveBytesConcat(a, [view[i]] + b);
    LiveBytesConcat(a, [q] + b);
    LiveBytesConcat(a, b);
    assert ([view[i]] + b)[1..] == b && ([q] + b)[1..] == b;
  }

  // ---- the merge loop ----

  lemma MergeStep(b: Block, c: Block, post: seq<Block>)
    ensures Merge([b, c] + post) == if b.free && c.free then Merge([Block(b.size + c.size, true)] + post)
                                    else [b] + Merge([c] + post)
  {
    var s := [b, c] + post;
    assert s[2..] == post && s[1..] == [c] + post;
  }

  /** Two touching free blocks may be joined first. */
  lemma {:induction false} MergeJoinsFirst(pre: seq<Block>, b: Block, c: Block, post: seq<Block>)
    requires b.free && c.free
    ensures Merge(pre + [b, c] + post) == Merge(pre + [Block(b.size + c.size, true)] + post)
    decreases |pre|
  {
    hide Merge;
    var d := Block(b.size + c.size, true);
    var s, t := pre + [b, c] + post, pre + [d] + post;
    if pre == [] {
      MergeStep(b, c, post);
      assert s == [b, c] + post && t == [d] + post;
    } else if |pre| == 1 {
      var a := pre[0];
      assert s == [a, b] + ([c] + post) && t == [a, d] + post;
      MergeStep(a, b, [c] + post);
      MergeStep(a, d, post);
      if a.free {
        var e := Block(a.size + b.size, true);
        assert [e] + ([c] + post) == [e, c] + post;
        MergeStep(e, c, post);
      } else {
        assert [b] + ([c] + post) == [b, c] + post;
        MergeStep(b, c, post);
      }
    } else {
      var a, a', rest := pre[0], pre[1], pre[2..];
      assert s == [a, a'] + (rest + [b, c] + post) && t == [a, a'] + (rest + [d] + post);
      MergeStep(a, a', rest + [b, c] + post);
      MergeStep(a, a', rest + [d] + post);
      var e := if a.free && a'.free then Block(a.size + a'.size, true) else a';
      assert [e] + (rest + [b, c] + post) == ([e] + rest) + [b, c] + post;
      assert [e] + (rest + [d] + post) == ([e] + rest) + [d] + post;
      MergeJoinsFirst([e] + rest, b, c, post);
    }
  }

  ghost predicate NoneFree(blocks: seq<Block>) {
    forall i :: 0 <= i < |blocks| ==> !blocks[i].free
  }

  lemma UsedFirst(b: Block, rest: seq<Block>)
    requires !b.free
    ensures Merge([b] + rest) == [b] + Merge(rest)
  {
    var s := [b] + rest;
    assert s[1..] == rest;
    if rest == [] { assert Merge(s) == s; }
  }

  /** Blocks in use pass through a merge. */
  lemma {:induction false} MergeSkips(mid: seq<Block>, rest: seq<Block>)
    requires NoneFree(mid)
    ensures Merge(mid + rest) == mid + Merge(rest)
    decreases |mid|
  {
    if mid == [] {
      assert mid + rest == rest;
    } else {
      assert mid + rest == [mid[0]] + (mid[1..] + rest) && mid == [mid[0]] + mid[1..];
      UsedFirst(mid[0], mid[1..] + rest);
      MergeSkips(mid[1..], rest);
    }
  }

  /** Blocks in use separate a free block from what is behind them. */
  lemma MergeApart(b: Block, mid: seq<Block>, rest: seq<Block>)
    requires NoneFree(mid) && mid != []
    ensures Merge([b] + mid + rest) == [b] + mid + Merge(rest)
  {
    hide Merge;
    assert [b] + mid + rest == [b, mid[0]] + (mid[1..] + rest) && [mid[0]] + (mid[1..] + rest) == mid + rest;
    MergeStep(b, mid[0], mid[1..] + rest);
    MergeSkips(mid, rest);
  }

  lemma MergeLast(b: Block, post: seq<Block>)
    requires NoneFree(post)
    ensures Merge([b] + post) == [b] + post
  {
    if post == [] {
      assert [b] + post == [b];
    } else {
      MergeApart(b, post, []);
      assert [b] + post + [] == [b] + post;
    }
  }

  lemma {:induction false} NoFreeCells(start: nat, blocks: seq<Block>)
    requires Cells(start, blocks, true) == []
    ensures NoneFree(blocks)
    decreases |blocks|
  {
    if blocks != [] { NoFreeCells(start + blocks[0].size, blocks[1..]); }
  }

  /** The first free block behind an address. */
  lemma NextFree(start: nat, post: seq<Block>) returns (mid: seq<Block>, d: Block, rest: seq<Block>)
    requires Cells(start, post, true) != []
    ensures post == mid + [d] + rest && NoneFree(mid) && d.free
    ensures First(Cells(start, post, true)) == start + Length(mid)
  {
    mid, d, rest := CellBlock(start, post, true, 0);
    NoFreeCells(start, mid);
  }
}
