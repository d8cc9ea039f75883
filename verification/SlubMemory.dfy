/** SLUB headers in memory: object links and marks, page structs and their two singly linked lists. */
module SlubMemory {
  import opened ObjectChains
  import opened ObjectPages
  import opened SlubMoves
  import opened Wrappers

  const SLUB_MAGIC: nat := 0x51B41234

  datatype PageStruct = PageStruct(base: nat, freelist: nat, inuse: int, objects: nat, next: nat)

  type Memory = ObjectMemory
  type PageMemory = map<nat, PageStruct>

  ghost predicate Marked(mem: Memory, bag: multiset<nat>) {
    forall a :: a in bag ==> a != NULL && a in mem && mem[a].magic == SLUB_MAGIC
  }

  /** Free objects are unmarked and linked per page; objects of CPUs and callers are marked. */
  ghost predicate Stored(mem: Memory, v: Pools) {
    && AllChained(mem, FreeLists(v.partial), 0)
    && AllChained(mem, v.lists, SLUB_MAGIC)
    && Marked(mem, Bag(v.batches) + v.out)
  }

  // ---- what is on one list is on no other ----

  lemma FreeIsNowhereElse(s: Shape, v: Pools, i: nat, a: nat)
    requires Sound(s, v) && i < |v.partial| && a in v.partial[i].free
    ensures a !in Bag(v.lists) && a !in Bag(v.batches) && a !in v.out
    ensures forall j :: 0 <= j < |v.partial| && j != i ==> a !in v.partial[j].free
    ensures multiset(v.partial[i].free)[a] == 1
  {
    hide Bag, PagesSound, AllSlots;
    EverythingOnce(s, v);
    InBag(FreeLists(v.partial), i, a);
    assert Everywhere(v)[a] == Bag(FreeLists(v.partial))[a] + Bag(FreeLists(v.full))[a] + Bag(v.batches)[a]
                               + Bag(v.lists)[a] + v.out[a];
    OnOneList(FreeLists(v.partial), i, a);
    assert forall j :: 0 <= j < |v.partial| ==> FreeLists(v.partial)[j] == v.partial[j].free;
  }

  lemma HeldIsNowhereElse(s: Shape, v: Pools, a: nat)
    requires Sound(s, v) && a in v.out
    ensures a !in Bag(v.lists) && a !in Bag(v.batches) && a !in Bag(FreeLists(v.partial)) && v.out[a] == 1
  {
    hide Bag, PagesSound, AllSlots;
    EverythingOnce(s, v);
    assert Everywhere(v)[a] == Bag(FreeLists(v.partial))[a] + Bag(FreeLists(v.full))[a] + Bag(v.batches)[a]
                               + Bag(v.lists)[a] + v.out[a];
  }

  // ---- steps ----

  lemma PopLists(v: Pools, mem: Memory)
    requires v.partial != [] && v.partial[0].free != [] && AllChained(mem, FreeLists(v.partial), 0)
    requires multiset(v.partial[0].free)[v.partial[0].free[0]] == 1
    requires forall j :: 0 < j < |v.partial| ==> v.partial[0].free[0] !in v.partial[j].free
    ensures var a := v.partial[0].free[0];
      && a != NULL && a in mem && mem[a].next == AddrAt(v.partial[0].free, 1)
      && AllChained(mem[a := Object(NULL, SLUB_MAGIC)], FreeLists(Popped(v).partial), 0)
  {
    hide Chained;
    var p, lists := v.partial[0], FreeLists(v.partial);
    var a, rest := p.free[0], p.free[1..];
    var m, w := mem[a := Object(NULL, SLUB_MAGIC)], FreeLists(Popped(v).partial);
    assert lists[0] == p.free;
    ChainTail(mem, p.free, 0);
    assert p.free == [a] + rest && multiset(p.free) == multiset{a} + multiset(rest);
    forall i | 0 <= i < |w| ensures Chained(m, w[i], 0) {
      var k := if rest == [] then i + 1 else i;
      if k == 0 {
        ChainElsewhere(mem, m, rest, 0);
      } else {
        assert w[i] == lists[k] == v.partial[k].free;
        ChainElsewhere(mem, m, lists[k], 0);
      }
    }
  }

  /** alloc_from_page. */
  lemma PopStored(s: Shape, v: Pools, mem: Memory)
    requires Sound(s, v) && v.partial != [] && v.partial[0].free != [] && Stored(mem, v)
    ensures var a := v.partial[0].free[0];
      && a != NULL && a in mem && mem[a].next == AddrAt(v.partial[0].free, 1)
      && Stored(mem[a := Object(NULL, SLUB_MAGIC)], Popped(v))
  {
    hide Bag, Sound, AllChained;
    var a := v.partial[0].free[0];
    var m, w := mem[a := Object(NULL, SLUB_MAGIC)], Popped(v);
    FreeIsNowhereElse(s, v, 0, a);
    PopLists(v, mem);
    AllElsewhere(mem, m, v.lists, SLUB_MAGIC);
    assert forall b :: b in Bag(w.batches) + w.out ==> b == a || b in Bag(v.batches) + v.out;
  }

  /** free_to_page, to the front of the free list of page i of the partial list. */
  lemma PushPartialStored(s: Shape, v: Pools, mem: Memory, i: nat, a: nat)
    requires Sound(s, v) && i < |v.partial| && a in v.out && Stored(mem, v)
    ensures a in mem && a != NULL
    ensures Stored(mem[a := Object(Head(v.partial[i].free), 0)], PushedPartial(v, i, a))
  {
    hide Bag, Sound, Chained;
    var lists, p := FreeLists(v.partial), v.partial[i];
    var m, w := mem[a := Object(Head(p.free), 0)], PushedPartial(v, i, a);
    HeldIsNowhereElse(s, v, a);
    assert a in Bag(v.batches) + v.out;
    AllElsewhere(mem, m, v.lists, SLUB_MAGIC);
    NotOnLists(lists, a);
    forall j | 0 <= j < |w.partial| ensures Chained(m, FreeLists(w.partial)[j], 0) {
      assert lists[j] == v.partial[j].free;
      if j == i {
        ChainCons(mem, a, p.free, 0);
        assert FreeLists(w.partial)[j] == [a] + p.free;
      } else {
        ChainElsewhere(mem, m, lists[j], 0);
        assert FreeLists(w.partial)[j] == lists[j];
      }
    }
    assert forall b :: b in Bag(w.batches) + w.out ==> b != a && b in Bag(v.batches) + v.out;
  }

  /** free_to_page, to a full page, which moves to the partial list. */
  lemma PushFullStored(s: Shape, v: Pools, mem: Memory, i: nat, a: nat)
    requires Sound(s, v) && i < |v.full| && a in v.out && Stored(mem, v)
    ensures a in mem && a != NULL
    ensures Stored(mem[a := Object(NULL, 0)], PushedFull(v, i, a))
  {
    hide Bag, Sound, Chained;
    var lists := FreeLists(v.partial);
    var m, w := mem[a := Object(NULL, 0)], PushedFull(v, i, a);
    HeldIsNowhereElse(s, v, a);
    assert a in Bag(v.batches) + v.out;
    AllElsewhere(mem, m, v.lists, SLUB_MAGIC);
    AllElsewhere(mem, m, lists, 0);
    ChainOne(m, a, 0);
    forall j | 0 <= j < |w.partial| ensures Chained(m, FreeLists(w.partial)[j], 0) {
      assert FreeLists(w.partial)[j] == if j == 0 then [a] else lists[j - 1];
    }
    assert forall b :: b in Bag(w.batches) + w.out ==> b != a && b in Bag(v.batches) + v.out;
  }

  /** cpu_cache_free to the list of a CPU. */
  lemma ListInStored(s: Shape, v: Pools, mem: Memory, c: nat, a: nat)
    requires Sound(s, v) && c < MAX_CPUS && a in v.out && Stored(mem, v)
    ensures a in mem && Stored(mem[a := mem[a].(next := Head(v.lists[c]))], ListIn(v, c, a))
  {
    hide Bag, PagesSound, AllSlots, Chained;
    assert a in Bag(v.batches) + v.out;
    var m, w := mem[a := mem[a].(next := Head(v.lists[c]))], ListIn(v, c, a);
    HeldIsNowhereElse(s, v, a);
    AllElsewhere(mem, m, FreeLists(v.partial), 0);
    NotOnLists(v.lists, a);
    ChainCons(mem, a, v.lists[c], SLUB_MAGIC);
    forall j | 0 <= j < |w.lists| ensures Chained(m, w.lists[j], SLUB_MAGIC) {
      if j != c { ChainElsewhere(mem, m, v.lists[j], SLUB_MAGIC); }
    }
    assert forall b :: b in Bag(w.batches) + w.out ==> b in Bag(v.batches) + v.out;
  }

  /** cpu_cache_alloc from the list of a CPU. */
  lemma ListOutStored(s: Shape, v: Pools, mem: Memory, c: nat)
    requires Sound(s, v) && c < MAX_CPUS && v.lists[c] != [] && Stored(mem, v)
    ensures var a := v.lists[c][0];
      a != NULL && a in mem && mem[a] == Object(Head(v.lists[c][1..]), SLUB_MAGIC) && Stored(mem, ListOut(v, c))
  {
    hide Bag, Chained;
    var w := ListOut(v, c);
    ChainTail(mem, v.lists[c], SLUB_MAGIC);
    forall j | 0 <= j < |w.lists| ensures Chained(mem, w.lists[j], SLUB_MAGIC) {
      assert j != c ==> w.lists[j] == v.lists[j];
    }
    assert forall b :: b in Bag(w.batches) + w.out ==> b == v.lists[c][0] || b in Bag(v.batches) + v.out;
  }

  lemma BatchInStored(s: Shape, v: Pools, mem: Memory, c: nat, a: nat)
    requires Sound(s, v) && c < MAX_CPUS && a in v.out && Stored(mem, v)
    ensures a != NULL && a in mem && Stored(mem, BatchIn(v, c, a))
  {
    hide Bag, AllChained;
    var w := BatchIn(v, c, a);
    assert a in Bag(v.batches) + v.out;
    BagAt(v.batches, c, v.batches[c] + [a]);
    assert multiset(v.batches[c] + [a]) == multiset(v.batches[c]) + multiset{a};
    assert forall b :: b in Bag(w.batches) + w.out ==> b == a || b in Bag(v.batches) + v.out;
  }

  lemma BatchOutStored(s: Shape, v: Pools, mem: Memory, c: nat)
    requires Sound(s, v) && c < MAX_CPUS && v.batches[c] != [] && Stored(mem, v)
    ensures v.batches[c][|v.batches[c]| - 1] != NULL && Stored(mem, BatchOut(v, c))
  {
    hide Bag, AllChained;
    var w, b := BatchOut(v, c), v.batches[c];
    var x, y := b[..|b| - 1], b[|b| - 1];
    BagAt(v.batches, c, x);
    assert b == x + [y];
    assert multiset(b) == multiset(x) + multiset{y};
    assert y in Bag(v.batches) + v.out;
    assert forall a :: a in Bag(w.batches) + w.out ==> a in Bag(v.batches) + v.out;
  }

  // ---- a new page ----

  lemma NewPageStored(s: Shape, v: Pools, mem: Memory, m: Memory, addr: nat, base: nat)
    requires Sound(s, v) && Stored(mem, v) && Unused(s, v.bases, addr, base) && OnlyIn(s, base, m, mem)
    requires Linked(m, base, s.size, Objects(s), 0)
    ensures Stored(m, Added(s, v, addr, base))
  {
    hide Bag, Objects, Chained, PagesSound;
    var w, lists := Added(s, v, addr, base), FreeLists(v.partial);
    forall a | a in Everywhere(v) ensures !InRegion(s, base, a) { OutsideRegion(s, v, addr, base, a); }
    assert forall a :: a in Bag(lists) || a in Bag(v.lists) || a in Bag(v.batches) + v.out ==> a in Everywhere(v);
    AllElsewhere(mem, m, lists, 0);
    AllElsewhere(mem, m, v.lists, SLUB_MAGIC);
    forall j | 0 <= j < |w.partial| ensures Chained(m, FreeLists(w.partial)[j], 0) {
      assert FreeLists(w.partial)[j] == if j == 0 then NewPage(s, addr, base).free else lists[j - 1];
    }
  }

  lemma OutsideRegion(s: Shape, v: Pools, addr: nat, base: nat, a: nat)
    requires Sound(s, v) && Unused(s, v.bases, addr, base) && a in Everywhere(v)
    ensures !InRegion(s, base, a)
  {
    hide Bag, Objects, PageSlots;
    assert a in AllSlots(s, v);
    var p: Page;
    if a in Bag(SlotLists(s, v.partial)) {
      var i := SlotRegion(s, v.partial, a);
      p := v.partial[i];
    } else {
      var i := SlotRegion(s, v.full, a);
      p := v.full[i];
    }
    assert PageOk(s, v.bases, p);
    assert RegionsApart(s, base, v.bases[p.addr]);
  }

  lemma DroppedStored(mem: Memory, v: Pools, i: nat)
    requires Stored(mem, v) && i < |v.partial|
    ensures Stored(mem, Dropped(v, i))
  {
    hide Bag, Chained;
    var w, lists := Dropped(v, i), FreeLists(v.partial);
    forall j | 0 <= j < |w.partial| ensures Chained(mem, FreeLists(w.partial)[j], 0) {
      assert FreeLists(w.partial)[j] == lists[if j < i then j else j + 1];
    }
  }

  // ---- page structs ----

  function PageAddr(pages: seq<Page>, i: int): nat {
    if 0 <= i < |pages| then pages[i].addr else NULL
  }

  function StructOf(s: Shape, p: Page, next: nat): PageStruct
    requires s.size > 0
  {
    PageStruct(p.base, Head(p.free), Used(s, p), Objects(s), next)
  }

  ghost predicate PageAt(pm: PageMemory, s: Shape, pages: seq<Page>, i: nat)
    requires s.size > 0 && i < |pages|
  {
    pages[i].addr != NULL && pages[i].addr in pm && pm[pages[i].addr] == StructOf(s, pages[i], PageAddr(pages, i + 1))
  }

  ghost predicate PageList(pm: PageMemory, s: Shape, pages: seq<Page>)
    requires s.size > 0
  {
    forall i {:trigger PageAt(pm, s, pages, i)} :: 0 <= i < |pages| ==> PageAt(pm, s, pages, i)
  }

  lemma ListHead(pm: PageMemory, s: Shape, pages: seq<Page>, i: nat)
    requires s.size > 0 && PageList(pm, s, pages) && i < |pages|
    ensures pages[i].addr != NULL && pages[i].addr in pm
    ensures pm[pages[i].addr] == StructOf(s, pages[i], PageAddr(pages, i + 1))
  {
    assert PageAt(pm, s, pages, i);
  }

  lemma ListElsewhere(pm: PageMemory, s: Shape, pages: seq<Page>, addr: nat, x: PageStruct)
    requires s.size > 0 && PageList(pm, s, pages) && NotIn(pages, addr)
    ensures PageList(pm[addr := x], s, pages)
  {
    hide StructOf;
    var pm' := pm[addr := x];
    forall i: nat | i < |pages| ensures PageAt(pm', s, pages, i) { assert PageAt(pm, s, pages, i); }
  }

  lemma ListSet(pm: PageMemory, s: Shape, pages: seq<Page>, i: nat, q: Page)
    requires s.size > 0 && PageList(pm, s, pages) && Distinct(pages) && i < |pages| && q.addr == pages[i].addr
    ensures PageList(pm[q.addr := StructOf(s, q, PageAddr(pages, i + 1))], s, pages[i := q])
  {
    hide StructOf;
    var t, pm' := pages[i := q], pm[q.addr := StructOf(s, q, PageAddr(pages, i + 1))];
    forall j: nat | j < |t| ensures PageAt(pm', s, t, j) {
      assert PageAt(pm, s, pages, j);
      assert PageAddr(t, j + 1) == PageAddr(pages, j + 1);
    }
  }

  lemma ListPush(pm: PageMemory, s: Shape, pages: seq<Page>, q: Page)
    requires s.size > 0 && PageList(pm, s, pages) && NotIn(pages, q.addr) && q.addr != NULL
    ensures PageList(pm[q.addr := StructOf(s, q, PageAddr(pages, 0))], s, [q] + pages)
  {
    hide StructOf;
    var t, pm' := [q] + pages, pm[q.addr := StructOf(s, q, PageAddr(pages, 0))];
    forall j: nat | j < |t| ensures PageAt(pm', s, t, j) {
      assert PageAddr(t, j + 1) == PageAddr(pages, j);
      if j > 0 { assert PageAt(pm, s, pages, j - 1) && t[j] == pages[j - 1]; }
    }
  }

  /** remove_page_from_list: the page before it links past it. */
  function Unlinked(pm: PageMemory, pages: seq<Page>, i: nat): PageMemory
    requires i < |pages| && (i > 0 ==> pages[i - 1].addr in pm)
  {
    if i == 0 then pm else pm[pages[i - 1].addr := pm[pages[i - 1].addr].(next := PageAddr(pages, i + 1))]
  }

  lemma ListUnlink(pm: PageMemory, s: Shape, pages: seq<Page>, i: nat)
    requires s.size > 0 && PageList(pm, s, pages) && Distinct(pages) && i < |pages|
    ensures i > 0 ==> pages[i - 1].addr in pm
    ensures PageList(Unlinked(pm, pages, i), s, Without(pages, i))
  {
    var w := Without(pages, i);
    if i > 0 { assert PageAt(pm, s, pages, i - 1); }
    hide Used, Objects;
    assert forall j :: 0 <= j < |w| ==> w[j] == pages[if j < i then j else j + 1];
    forall j: nat | j < |w| ensures PageAt(Unlinked(pm, pages, i), s, w, j) {
      var k := if j < i then j else j + 1;
      assert PageAt(pm, s, pages, k) && w[j] == pages[k];
      assert PageAddr(w, j + 1) == PageAddr(pages, if j + 1 < i then j + 1 else j + 2);
    }
  }

  lemma SinglePart(x: multiset<nat>, y: multiset<nat>)
    requires Single(x + y)
    ensures Single(x) && Single(y) && forall a :: a in x ==> a !in y
  {
    forall a | a in x ensures x[a] <= 1 && a !in y { assert (x + y)[a] == x[a] + y[a]; }
    forall a | a in y ensures y[a] <= 1 { assert (x + y)[a] == x[a] + y[a]; }
  }

  /** The two lists share no page struct, and neither has one twice. */
  lemma ListsDistinct(s: Shape, v: Pools)
    requires Sound(s, v)
    ensures Distinct(v.partial) && Distinct(v.full)
    ensures forall i :: 0 <= i < |v.full| ==> NotIn(v.partial, v.full[i].addr)
    ensures forall i :: 0 <= i < |v.partial| ==> NotIn(v.full, v.partial[i].addr)
  {
    hide Bag, PageOk, BasesApart, Objects, AllSlots, Everywhere;
    SinglePart(Bag(AddrLists(v.partial)), Bag(AddrLists(v.full)));
    forall i, j | 0 <= i < j < |v.partial| ensures v.partial[i].addr != v.partial[j].addr { AddrsDistinct(v.partial, i, j); }
    forall i, j | 0 <= i < j < |v.full| ensures v.full[i].addr != v.full[j].addr { AddrsDistinct(v.full, i, j); }
    forall i, j | 0 <= i < |v.partial| && 0 <= j < |v.full| ensures v.partial[i].addr != v.full[j].addr {
      InBag(AddrLists(v.partial), i, v.partial[i].addr);
      InBag(AddrLists(v.full), j, v.full[j].addr);
    }
  }

  /** Both page lists in memory. */
  ghost predicate Listed(pm: PageMemory, s: Shape, v: Pools)
    requires s.size > 0
  {
    PageList(pm, s, v.partial) && PageList(pm, s, v.full)
  }

  /** The page struct writes of taking an object: count it, and move the page when it is full. */
  function PopStructs(pm: PageMemory, s: Shape, v: Pools): PageMemory
    requires s.size > 0 && v.partial != [] && v.partial[0].free != []
  {
    var p := v.partial[0];
    var q := p.(free := p.free[1..]);
    pm[p.addr := StructOf(s, q, if q.free == [] then PageAddr(v.full, 0) else PageAddr(v.partial, 1))]
  }

  /** A page moves from the front of one list to the front of another. */
  lemma HeadMoves(pm: PageMemory, s: Shape, x: seq<Page>, y: seq<Page>, q: Page)
    requires s.size > 0 && PageList(pm, s, x) && PageList(pm, s, y) && Distinct(x) && x != []
    requires q.addr == x[0].addr && NotIn(y, q.addr)
    ensures PageList(pm[q.addr := StructOf(s, q, PageAddr(y, 0))], s, x[1..])
    ensures PageList(pm[q.addr := StructOf(s, q, PageAddr(y, 0))], s, [q] + y)
  {
    hide StructOf, PageList, Distinct, NotIn;
    PopTail(pm, s, x);
    ListAddr(pm, s, x);
    ListElsewhere(pm, s, x[1..], q.addr, StructOf(s, q, PageAddr(y, 0)));
    ListPush(pm, s, y, q);
  }

  lemma HeadStays(pm: PageMemory, s: Shape, x: seq<Page>, y: seq<Page>, q: Page)
    requires s.size > 0 && PageList(pm, s, x) && PageList(pm, s, y) && Distinct(x) && x != []
    requires q.addr == x[0].addr && NotIn(y, q.addr)
    ensures PageList(pm[q.addr := StructOf(s, q, PageAddr(x, 1))], s, [q] + x[1..])
    ensures PageList(pm[q.addr := StructOf(s, q, PageAddr(x, 1))], s, y)
  {
    hide StructOf, PageList, Distinct, NotIn;
    ListSet(pm, s, x, 0, q);
    assert x[0 := q] == [q] + x[1..];
    ListElsewhere(pm, s, y, q.addr, StructOf(s, q, PageAddr(x, 1)));
  }

  lemma PopListed(pm: PageMemory, s: Shape, v: Pools)
    requires Sound(s, v) && Listed(pm, s, v) && v.partial != [] && v.partial[0].free != []
    ensures Listed(PopStructs(pm, s, v), s, Popped(v))
  {
    assert s.size > 0;
    ListsDistinct(s, v);
    hide Sound, StructOf, PageList, Distinct, NotIn, PageAddr;
    var q := v.partial[0].(free := v.partial[0].free[1..]);
    if q.free == [] {
      HeadMoves(pm, s, v.partial, v.full, q);
    } else {
      HeadStays(pm, s, v.partial, v.full, q);
    }
  }

  lemma ListAddr(pm: PageMemory, s: Shape, pages: seq<Page>)
    requires s.size > 0 && PageList(pm, s, pages) && pages != []
    ensures pages[0].addr != NULL
  {
    assert PageAt(pm, s, pages, 0);
  }

  lemma PopTail(pm: PageMemory, s: Shape, pages: seq<Page>)
    requires s.size > 0 && PageList(pm, s, pages) && Distinct(pages) && pages != []
    ensures PageList(pm, s, pages[1..]) && NotIn(pages[1..], pages[0].addr)
  {
    ListUnlink(pm, s, pages, 0);
    assert Without(pages, 0) == pages[1..];
  }

  /** free_to_page and the move of a page that was full. */
  function PushFullStructs(pm: PageMemory, s: Shape, v: Pools, i: nat, a: nat): PageMemory
    requires s.size > 0 && i < |v.full| && (i > 0 ==> v.full[i - 1].addr in pm)
  {
    var q := v.full[i].(free := [a]);
    Unlinked(pm, v.full, i)[q.addr := StructOf(s, q, PageAddr(v.partial, 0))]
  }

  /** A page moves from inside one list to the front of another. */
  lemma InnerMoves(pm: PageMemory, s: Shape, x: seq<Page>, i: nat, y: seq<Page>, q: Page)
    requires s.size > 0 && PageList(pm, s, x) && PageList(pm, s, y) && Distinct(x) && i < |x|
    requires q.addr == x[i].addr && NotIn(y, q.addr) && (i > 0 ==> NotIn(y, x[i - 1].addr))
    ensures i > 0 ==> x[i - 1].addr in pm
    ensures var m := Unlinked(pm, x, i)[q.addr := StructOf(s, q, PageAddr(y, 0))];
      PageList(m, s, Without(x, i)) && PageList(m, s, [q] + y)
  {
    WithoutNotIn(x, i);
    hide StructOf, PageList, Distinct, NotIn, PageAddr, Without;
    ListUnlink(pm, s, x, i);
    var m := Unlinked(pm, x, i);
    if i > 0 { ListElsewhere(pm, s, y, x[i - 1].addr, m[x[i - 1].addr]); }
    ListHead(pm, s, x, i);
    ListPush(m, s, y, q);
    ListElsewhere(m, s, Without(x, i), q.addr, StructOf(s, q, PageAddr(y, 0)));
  }

  lemma WithoutNotIn(x: seq<Page>, i: nat)
    requires Distinct(x) && i < |x|
    ensures NotIn(Without(x, i), x[i].addr)
  {
    var w := Without(x, i);
    assert forall j :: 0 <= j < |w| ==> w[j] == x[if j < i then j else j + 1];
  }

  lemma PushFullListed(pm: PageMemory, s: Shape, v: Pools, i: nat, a: nat)
    requires Sound(s, v) && Listed(pm, s, v) && i < |v.full| && a in v.out
    ensures i > 0 ==> v.full[i - 1].addr in pm
    ensures Listed(PushFullStructs(pm, s, v, i, a), s, PushedFull(v, i, a))
  {
    assert s.size > 0;
    ListsDistinct(s, v);
    hide Sound, StructOf, PageList, Distinct, NotIn, PageAddr, Without, Unlinked;
    InnerMoves(pm, s, v.full, i, v.partial, v.full[i].(free := [a]));
  }

  function PushPartialStructs(pm: PageMemory, s: Shape, v: Pools, i: nat, a: nat): PageMemory
    requires s.size > 0 && i < |v.partial|
  {
    var q := v.partial[i].(free := [a] + v.partial[i].free);
    pm[q.addr := StructOf(s, q, PageAddr(v.partial, i + 1))]
  }

  lemma PushPartialListed(pm: PageMemory, s: Shape, v: Pools, i: nat, a: nat)
    requires Sound(s, v) && Listed(pm, s, v) && i < |v.partial| && a in v.out
    ensures Listed(PushPartialStructs(pm, s, v, i, a), s, PushedPartial(v, i, a))
  {
    assert s.size > 0;
    ListsDistinct(s, v);
    hide Sound, StructOf, PageList, Distinct, NotIn, PageAddr;
    var q := v.partial[i].(free := [a] + v.partial[i].free);
    ListSet(pm, s, v.partial, i, q);
    ListElsewhere(pm, s, v.full, q.addr, StructOf(s, q, PageAddr(v.partial, i + 1)));
  }

  lemma AddListed(pm: PageMemory, s: Shape, v: Pools, addr: nat, base: nat)
    requires Sound(s, v) && Listed(pm, s, v) && Unused(s, v.bases, addr, base)
    ensures Listed(pm[addr := StructOf(s, NewPage(s, addr, base), PageAddr(v.partial, 0))], s, Added(s, v, addr, base))
  {
    hide StructOf, PageList, NewPage, BasesApart, AllSlots, Everywhere;
    var q := NewPage(s, addr, base);
    NotYetThere(s, v, addr);
    NotInBag(v.partial, addr);
    NotInBag(v.full, addr);
    NewPageAddr(s, addr, base);
    ListPush(pm, s, v.partial, q);
    ListElsewhere(pm, s, v.full, addr, StructOf(s, q, PageAddr(v.partial, 0)));
  }

  lemma NewPageAddr(s: Shape, addr: nat, base: nat)
    requires s.size > 0
    ensures NewPage(s, addr, base).addr == addr && NewPage(s, addr, base).base == base
  {
  }

  lemma DropListed(pm: PageMemory, s: Shape, v: Pools, i: nat)
    requires Sound(s, v) && Listed(pm, s, v) && i < |v.partial|
    ensures i > 0 ==> v.partial[i - 1].addr in pm
    ensures Listed(Unlinked(pm, v.partial, i), s, Dropped(v, i))
  {
    assert s.size > 0;
    hide Sound, StructOf, PageList;
    ListsDistinct(s, v);
    ListUnlink(pm, s, v.partial, i);
    var m := Unlinked(pm, v.partial, i);
    if i > 0 { ListElsewhere(pm, s, v.full, v.partial[i - 1].addr, m[v.partial[i - 1].addr]); }
  }
}
