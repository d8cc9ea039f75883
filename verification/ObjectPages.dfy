/** Pages cut into objects of one size, as the SLUB and the slab allocator use them: bags of addresses,
    free lists, pages in memory of their own. */
module ObjectPages {
  import opened Dyadic
  import opened Wrappers

  const PAGE_SIZE: nat := 4096
  const NULL: nat := 0

  /** The object size of a cache and the order of its pages. */
  datatype Shape = Shape(size: nat, order: nat)

  /** A page: where its struct is, where its objects start, and its free list. */
  datatype Page = Page(addr: nat, base: nat, free: seq<nat>)

  function Span(s: Shape): nat {
    PAGE_SIZE * Pow2(s.order)
  }

  function Objects(s: Shape): nat
    requires s.size > 0
  {
    Span(s) / s.size
  }

  ghost predicate ShapeOk(s: Shape) {
    s.size > 0 && Objects(s) > 0
  }

  /** The first n object addresses of a page. */
  function Slots(base: nat, size: nat, n: nat): seq<nat> {
    if n == 0 then [] else Slots(base, size, n - 1) + [base + Times(n - 1, size)]
  }

  function PageSlots(s: Shape, p: Page): seq<nat>
    requires s.size > 0
  {
    Slots(p.base, s.size, Objects(s))
  }

  // ---- bags of addresses ----

  function Bag(lists: seq<seq<nat>>): multiset<nat> {
    if lists == [] then multiset{} else multiset(lists[0]) + Bag(lists[1..])
  }

  function FreeLists(pages: seq<Page>): seq<seq<nat>> {
    seq(|pages|, i requires 0 <= i < |pages| => pages[i].free)
  }

  function SlotLists(s: Shape, pages: seq<Page>): seq<seq<nat>>
    requires s.size > 0
  {
    seq(|pages|, i requires 0 <= i < |pages| => PageSlots(s, pages[i]))
  }

  function AddrLists(pages: seq<Page>): seq<seq<nat>> {
    seq(|pages|, i requires 0 <= i < |pages| => [pages[i].addr])
  }

  ghost predicate Single(b: multiset<nat>) {
    forall a :: b[a] <= 1
  }

  lemma {:induction false} BagConcat(x: seq<seq<nat>>, y: seq<seq<nat>>)
    ensures Bag(x + y) == Bag(x) + Bag(y)
  {
    if x == [] {
      assert x + y == y;
    } else {
      assert (x + y)[1..] == x[1..] + y;
      BagConcat(x[1..], y);
    }
  }

  lemma BagOne(l: seq<nat>)
    ensures Bag([l]) == multiset(l)
  {
    assert [l][1..] == [];
  }

  lemma BagAt(lists: seq<seq<nat>>, i: nat, l: seq<nat>)
    requires i < |lists|
    ensures Bag(lists) == Bag(Without(lists, i)) + multiset(lists[i])
    ensures Bag(lists[i := l]) == Bag(Without(lists, i)) + multiset(l)
  {
    hide Bag;
    var x, y := lists[..i], lists[i + 1..];
    assert lists == x + ([lists[i]] + y) && lists[i := l] == x + ([l] + y);
    BagConcat(x, [lists[i]] + y);
    BagConcat(x, [l] + y);
    BagConcat([lists[i]], y);
    BagConcat([l], y);
    BagConcat(x, y);
    BagOne(l);
    BagOne(lists[i]);
  }

  lemma InBag(lists: seq<seq<nat>>, i: nat, a: nat)
    requires i < |lists| && a in lists[i]
    ensures a in Bag(lists)
  {
    BagAt(lists, i, lists[i]);
  }

  lemma {:induction false} BagOwner(lists: seq<seq<nat>>, a: nat) returns (i: nat)
    requires a in Bag(lists)
    ensures i < |lists| && a in lists[i]
  {
    if a in multiset(lists[0]) {
      i := 0;
    } else {
      i := BagOwner(lists[1..], a);
      i := i + 1;
    }
  }

  /** An address that occurs once in a bag of lists is on no second list. */
  lemma OnOneList(lists: seq<seq<nat>>, i: nat, a: nat)
    requires i < |lists| && a in lists[i] && Bag(lists)[a] <= 1
    ensures forall j :: 0 <= j < |lists| && j != i ==> a !in lists[j]
    ensures multiset(lists[i])[a] == 1
  {
    hide Bag;
    BagAt(lists, i, lists[i]);
    var w := Without(lists, i);
    assert a in multiset(lists[i]);
    forall j | 0 <= j < |lists| && j != i ensures a !in lists[j] {
      if a in lists[j] {
        var k := if j < i then j else j - 1;
        assert w[k] == lists[j];
        InBag(w, k, a);
      }
    }
  }

  // ---- objects in use ----

  /** Objects of a page that are not on its free list. */
  function Used(s: Shape, p: Page): int
    requires s.size > 0
  {
    Objects(s) - |p.free|
  }

  function InUse(s: Shape, pages: seq<Page>): int
    requires s.size > 0
  {
    if pages == [] then 0 else Used(s, pages[0]) + InUse(s, pages[1..])
  }

  lemma {:induction false} InUseConcat(s: Shape, x: seq<Page>, y: seq<Page>)
    requires s.size > 0
    ensures InUse(s, x + y) == InUse(s, x) + InUse(s, y)
  {
    hide Used;
    if x == [] {
      assert x + y == y;
    } else {
      assert (x + y)[1..] == x[1..] + y;
      InUseConcat(s, x[1..], y);
    }
  }

  lemma InUseAt(s: Shape, pages: seq<Page>, i: nat, q: Page)
    requires s.size > 0 && i < |pages|
    ensures InUse(s, pages) == InUse(s, Without(pages, i)) + Used(s, pages[i])
    ensures InUse(s, pages[i := q]) == InUse(s, Without(pages, i)) + Used(s, q)
  {
    hide Used;
    var x, y := pages[..i], pages[i + 1..];
    assert pages == x + ([pages[i]] + y) && pages[i := q] == x + ([q] + y);
    InUseConcat(s, x, [pages[i]] + y);
    InUseConcat(s, x, [q] + y);
    InUseConcat(s, x, y);
    assert ([pages[i]] + y)[1..] == y && ([q] + y)[1..] == y;
  }

  /** Objects in use are all objects less the free ones. */
  lemma {:induction false} InUseIs(s: Shape, pages: seq<Page>)
    requires s.size > 0
    ensures InUse(s, pages) == Times(Objects(s), |pages|) - |Bag(FreeLists(pages))|
  {
    hide Objects;
    if pages == [] {
      assert FreeLists(pages) == [];
    } else {
      hide Times;
      InUseIs(s, pages[1..]);
      assert FreeLists(pages)[1..] == FreeLists(pages[1..]);
      TimesSwap(Objects(s), |pages|);
      TimesSwap(Objects(s), |pages| - 1);
      TimesNext(|pages| - 1, Objects(s));
    }
  }

  // ---- slots ----

  lemma {:induction false} SlotsBetween(base: nat, size: nat, n: nat)
    requires size > 0
    ensures |Slots(base, size, n)| == n
    ensures forall a :: a in Slots(base, size, n) ==> base <= a && a + size <= base + Times(n, size)
    ensures Single(multiset(Slots(base, size, n)))
  {
    if n > 0 {
      SlotsBetween(base, size, n - 1);
      assert Times(n - 1, size) + size == Times(n, size);
      var t, x := Slots(base, size, n - 1), base + Times(n - 1, size);
      hide Times;
      assert Slots(base, size, n) == t + [x];
      assert x !in t;
      assert multiset(t + [x]) == multiset(t) + multiset{x};
    }
  }

  lemma ObjectsFit(s: Shape)
    requires s.size > 0
    ensures Times(Objects(s), s.size) <= Span(s)
  {
  }

  // ---- pages in memory of their own ----

  /** The object memory of every live page, by the address of the page's struct. */
  type Bases = map<nat, nat>

  predicate RegionsApart(s: Shape, x: nat, y: nat) {
    x + Span(s) <= y || y + Span(s) <= x
  }

  predicate InRegion(s: Shape, base: nat, a: nat) {
    base <= a < base + Span(s)
  }

  ghost predicate BasesApart(s: Shape, bases: Bases) {
    && (forall x :: x in bases ==> x != NULL && bases[x] != NULL)
    && (forall x, y :: x in bases && y in bases && x != y ==> RegionsApart(s, bases[x], bases[y]))
  }

  ghost predicate PageOk(s: Shape, bases: Bases, p: Page)
    requires s.size > 0
  {
    p.addr in bases && bases[p.addr] == p.base && multiset(p.free) <= multiset(PageSlots(s, p))
  }

  ghost predicate PagesOk(s: Shape, bases: Bases, pages: seq<Page>)
    requires s.size > 0
  {
    forall i {:trigger pages[i]} :: 0 <= i < |pages| ==> PageOk(s, bases, pages[i])
  }

  lemma SlotsInRegion(s: Shape, p: Page)
    requires ShapeOk(s)
    ensures |PageSlots(s, p)| == Objects(s) && Single(multiset(PageSlots(s, p)))
    ensures forall a :: a in PageSlots(s, p) ==> InRegion(s, p.base, a)
  {
    SlotsBetween(p.base, s.size, Objects(s));
    ObjectsFit(s);
  }

  lemma AddrsDistinct(pages: seq<Page>, i: nat, j: nat)
    requires Single(Bag(AddrLists(pages))) && i < |pages| && j < |pages| && i != j
    ensures pages[i].addr != pages[j].addr
  {
    hide Bag;
    OnOneList(AddrLists(pages), i, pages[i].addr);
    assert AddrLists(pages)[j] == [pages[j].addr];
  }

  lemma SlotRegion(s: Shape, pages: seq<Page>, a: nat) returns (i: nat)
    requires ShapeOk(s) && a in Bag(SlotLists(s, pages))
    ensures i < |pages| && a in PageSlots(s, pages[i]) && InRegion(s, pages[i].base, a)
  {
    i := BagOwner(SlotLists(s, pages), a);
    SlotsInRegion(s, pages[i]);
  }

  lemma HeadSlotsApart(s: Shape, bases: Bases, pages: seq<Page>, a: nat)
    requires ShapeOk(s) && BasesApart(s, bases) && PagesOk(s, bases, pages) && Single(Bag(AddrLists(pages)))
    requires pages != [] && a in PageSlots(s, pages[0])
    ensures a !in Bag(SlotLists(s, pages[1..]))
  {
    hide PageSlots, InRegion, Objects, Bag;
    var p, rest := pages[0], pages[1..];
    SlotsInRegion(s, p);
    if a in Bag(SlotLists(s, rest)) {
      var i := SlotRegion(s, rest, a);
      AddrsDistinct(pages, 0, i + 1);
      assert pages[i + 1] == rest[i];
      OneRegion(s, p.base, rest[i].base, a);
    }
  }

  lemma OneRegion(s: Shape, x: nat, y: nat, a: nat)
    requires InRegion(s, x, a) && InRegion(s, y, a)
    ensures !RegionsApart(s, x, y)
  {
  }

  /** Every object of every page has an address of its own. */
  lemma {:induction false} SlotsSingle(s: Shape, bases: Bases, pages: seq<Page>)
    requires ShapeOk(s) && BasesApart(s, bases) && PagesOk(s, bases, pages) && Single(Bag(AddrLists(pages)))
    ensures Single(Bag(SlotLists(s, pages)))
  {
    hide PageSlots, Objects, BasesApart, PageOk;
    if pages == [] {
      assert SlotLists(s, pages) == [];
    } else {
      assert SlotLists(s, pages)[1..] == SlotLists(s, pages[1..]);
      assert AddrLists(pages)[1..] == AddrLists(pages[1..]);
      assert forall a :: Bag(AddrLists(pages))[a] >= Bag(AddrLists(pages[1..]))[a];
      SlotsSingle(s, bases, pages[1..]);
      SlotsInRegion(s, pages[0]);
      forall a | a in PageSlots(s, pages[0]) ensures a !in Bag(SlotLists(s, pages[1..])) {
        HeadSlotsApart(s, bases, pages, a);
      }
    }
  }

  // ---- lists of pages taken apart ----

  lemma ConsFacts(s: Shape, q: Page, rest: seq<Page>)
    requires s.size > 0
    ensures Bag(FreeLists([q] + rest)) == multiset(q.free) + Bag(FreeLists(rest))
    ensures Bag(SlotLists(s, [q] + rest)) == multiset(PageSlots(s, q)) + Bag(SlotLists(s, rest))
    ensures Bag(AddrLists([q] + rest)) == multiset{q.addr} + Bag(AddrLists(rest))
    ensures InUse(s, [q] + rest) == Used(s, q) + InUse(s, rest)
  {
    hide PageSlots, Used;
    var t := [q] + rest;
    assert t[1..] == rest;
    assert FreeLists(t)[1..] == FreeLists(rest) && FreeLists(t)[0] == q.free;
    assert SlotLists(s, t)[1..] == SlotLists(s, rest) && SlotLists(s, t)[0] == PageSlots(s, q);
    assert AddrLists(t)[1..] == AddrLists(rest) && AddrLists(t)[0] == [q.addr];
  }

  lemma AtFacts(s: Shape, list: seq<Page>, i: nat, q: Page)
    requires s.size > 0 && i < |list|
    ensures var w, t := Without(list, i), list[i := q];
      && Bag(FreeLists(list)) == Bag(FreeLists(w)) + multiset(list[i].free)
      && Bag(FreeLists(t)) == Bag(FreeLists(w)) + multiset(q.free)
      && Bag(SlotLists(s, list)) == Bag(SlotLists(s, w)) + multiset(PageSlots(s, list[i]))
      && Bag(SlotLists(s, t)) == Bag(SlotLists(s, w)) + multiset(PageSlots(s, q))
      && Bag(AddrLists(list)) == Bag(AddrLists(w)) + multiset{list[i].addr}
      && Bag(AddrLists(t)) == Bag(AddrLists(w)) + multiset{q.addr}
      && InUse(s, list) == InUse(s, w) + Used(s, list[i]) && InUse(s, t) == InUse(s, w) + Used(s, q)
  {
    hide PageSlots, Used, Bag;
    var w, t := Without(list, i), list[i := q];
    assert FreeLists(t) == FreeLists(list)[i := q.free] && FreeLists(w) == Without(FreeLists(list), i);
    assert SlotLists(s, t) == SlotLists(s, list)[i := PageSlots(s, q)] && SlotLists(s, w) == Without(SlotLists(s, list), i);
    assert AddrLists(t) == AddrLists(list)[i := [q.addr]] && AddrLists(w) == Without(AddrLists(list), i);
    BagAt(FreeLists(list), i, q.free);
    BagAt(SlotLists(s, list), i, PageSlots(s, q));
    BagAt(AddrLists(list), i, [q.addr]);
    InUseAt(s, list, i, q);
  }

  // ---- new pages, and pages that change ----

  /** A page with another free list, still made of its own objects. */
  lemma SamePage(s: Shape, bases: Bases, p: Page, q: Page)
    requires s.size > 0 && PageOk(s, bases, p) && q.addr == p.addr && q.base == p.base
    requires multiset(q.free) <= multiset(PageSlots(s, p))
    ensures PageOk(s, bases, q) && PageSlots(s, q) == PageSlots(s, p)
  {
  }

  lemma PageFree(s: Shape, bases: Bases, p: Page)
    requires s.size > 0 && PageOk(s, bases, p)
    ensures multiset(p.free) <= multiset(PageSlots(s, p)) && p.addr in bases && bases[p.addr] == p.base
  {
  }

  function Backwards(l: seq<nat>): seq<nat> {
    if l == [] then [] else [l[|l| - 1]] + Backwards(l[..|l| - 1])
  }

  lemma {:induction false} BackwardsSame(l: seq<nat>)
    ensures multiset(Backwards(l)) == multiset(l) && |Backwards(l)| == |l|
  {
    if l != [] {
      BackwardsSame(l[..|l| - 1]);
      assert l == l[..|l| - 1] + [l[|l| - 1]];
    }
  }

  function NewPage(s: Shape, addr: nat, base: nat): Page
    requires s.size > 0
  {
    Page(addr, base, Backwards(Slots(base, s.size, Objects(s))))
  }

  lemma {:induction false} BackwardsAt(base: nat, size: nat, n: nat, i: nat)
    requires i < n
    ensures var l := Backwards(Slots(base, size, n)); |l| == n && l[i] == base + Times(n - 1 - i, size)
  {
    hide Times;
    assert Slots(base, size, n)[..|Slots(base, size, n)| - 1] == Slots(base, size, n - 1);
    if n > 1 { BackwardsAt(base, size, n - 1, if i > 0 then i - 1 else 0); }
  }

  /** A new page has as many objects as fit, one behind the other from its start; the last one is the first to
      be handed out. */
  lemma NewPageIsFilled(s: Shape, addr: nat, base: nat)
    requires s.size > 0
    ensures var p := NewPage(s, addr, base);
      && |p.free| * s.size <= 4096 * Pow2(s.order) < (|p.free| + 1) * s.size
      && forall i :: 0 <= i < |p.free| ==> p.free[i] == base + (|p.free| - 1 - i) * s.size
  {
    var n := Objects(s);
    assert Span(s) == n * s.size + Span(s) % s.size;
    assert (n + 1) * s.size == n * s.size + s.size;
    hide Objects, Backwards, Slots, Pow2;
    NoObjects(base, s.size);
    forall i | 0 <= i < n ensures |NewPage(s, addr, base).free| == n && NewPage(s, addr, base).free[i] == base + (n - 1 - i) * s.size {
      BackwardsAt(base, s.size, n, i);
    }
    if n > 0 { BackwardsAt(base, s.size, n, 0); }
  }

  lemma NoObjects(base: nat, size: nat)
    ensures Backwards(Slots(base, size, 0)) == []
  {
  }

  /** Memory from the page allocator that no live page uses. */
  ghost predicate Unused(s: Shape, bases: Bases, addr: nat, base: nat) {
    && addr != NULL && base != NULL && addr !in bases
    && forall x :: x in bases ==> RegionsApart(s, base, bases[x])
  }

  lemma NewPageFacts(s: Shape, addr: nat, base: nat)
    requires ShapeOk(s)
    ensures var p := NewPage(s, addr, base);
      multiset(p.free) == multiset(PageSlots(s, p)) && Used(s, p) == 0 && p.free != []
  {
    hide Objects;
    var p := NewPage(s, addr, base);
    BackwardsSame(Slots(base, s.size, Objects(s)));
    SlotsInRegion(s, p);
    PageSlotsIs(s, p);
  }

  lemma NewPageOk(s: Shape, bases: Bases, p: Page)
    requires s.size > 0 && p.addr in bases && bases[p.addr] == p.base && multiset(p.free) == multiset(PageSlots(s, p))
    ensures PageOk(s, bases, p)
  {
  }

  lemma BasesGrow(s: Shape, bases: Bases, addr: nat, base: nat)
    requires BasesApart(s, bases) && Unused(s, bases, addr, base)
    ensures BasesApart(s, bases[addr := base])
  {
  }

  lemma PageSlotsIs(s: Shape, p: Page)
    requires s.size > 0
    ensures PageSlots(s, p) == Slots(p.base, s.size, Objects(s))
  {
  }

  lemma {:induction false} AddrsKnown(s: Shape, bases: Bases, pages: seq<Page>, addr: nat)
    requires s.size > 0 && PagesOk(s, bases, pages) && addr !in bases
    ensures addr !in Bag(AddrLists(pages))
  {
    hide PageSlots;
    if pages != [] {
      assert AddrLists(pages)[1..] == AddrLists(pages[1..]);
      assert PageOk(s, bases, pages[0]);
      assert forall i {:trigger pages[1..][i]} :: 0 <= i < |pages| - 1 ==> pages[1..][i] == pages[i + 1];
      AddrsKnown(s, bases, pages[1..], addr);
    }
  }

  lemma PagesStay(s: Shape, bases: Bases, more: Bases, pages: seq<Page>)
    requires s.size > 0 && PagesOk(s, bases, pages)
    requires forall i :: 0 <= i < |pages| && pages[i].addr in bases ==>
      pages[i].addr in more && more[pages[i].addr] == bases[pages[i].addr]
    ensures PagesOk(s, more, pages)
  {
    forall i {:trigger pages[i]} | 0 <= i < |pages| ensures PageOk(s, more, pages[i]) {
      assert PageOk(s, bases, pages[i]);
    }
  }

  lemma SameSize(a: multiset<nat>, b: multiset<nat>)
    requires a <= b && |a| == |b|
    ensures a == b
  {
    var d := b - a;
    assert b == a + d;
    assert |b| == |a| + |d|;
  }

  lemma SingleLess(x: multiset<nat>, y: multiset<nat>, a: nat)
    requires Single(x) && x == y + multiset{a}
    ensures Single(y) && y[a] == 0
  {
    assert forall b :: y[b] <= x[b];
    assert x[a] == y[a] + 1;
  }

  ghost predicate Distinct(pages: seq<Page>) {
    forall i, j :: 0 <= i < j < |pages| ==> pages[i].addr != pages[j].addr
  }

  ghost predicate NotIn(pages: seq<Page>, a: nat) {
    forall i :: 0 <= i < |pages| ==> pages[i].addr != a
  }

  lemma NotInBag(pages: seq<Page>, addr: nat)
    requires addr !in Bag(AddrLists(pages))
    ensures NotIn(pages, addr)
  {
    hide Bag;
    forall j | 0 <= j < |pages| ensures pages[j].addr != addr {
      InBag(AddrLists(pages), j, pages[j].addr);
    }
  }
}
