/** The three slab lists of a cache of the slab allocator as values, and the runs that keep them apart. */
module SlabLists {
  import opened Dyadic
  import opened ObjectPages
  import opened Wrappers

  /** Slabs with no free object, with some, and with nothing but free objects. */
  datatype Slabs = Slabs(bases: Bases, full: seq<Page>, partial: seq<Page>, empty: seq<Page>)

  /** A slab struct and its memory; a zero address is a request the page allocator could not meet. */
  datatype Grant = Grant(slab: nat, memory: nat)

  predicate Refused(g: Grant) {
    g.slab == NULL || g.memory == NULL
  }

  const NONE: Slabs := Slabs(map[], [], [], [])

  function Count(v: Slabs): nat {
    |v.full| + |v.partial| + |v.empty|
  }

  // ---- cache_alloc ----

  /** A slab is brought to the front of the partial list, from the empty ones or a new one. */
  function Ready(s: Shape, v: Slabs, g: Grant): Slabs
    requires s.size > 0
  {
    if v.partial != [] then v
    else if v.empty != [] then v.(empty := v.empty[1..], partial := [v.empty[0]] + v.partial)
    else if Refused(g) then v
    else v.(bases := v.bases[g.slab := g.memory], partial := [NewPage(s, g.slab, g.memory)] + v.partial)
  }

  function Taken(v: Slabs): Slabs
    requires v.partial != [] && v.partial[0].free != []
  {
    var q := v.partial[0].(free := v.partial[0].free[1..]);
    if q.free == [] then v.(partial := v.partial[1..], full := [q] + v.full)
    else v.(partial := [q] + v.partial[1..])
  }

  function Allocated(s: Shape, v: Slabs, g: Grant): Slabs
    requires s.size > 0
  {
    var w := Ready(s, v, g);
    if w.partial == [] || w.partial[0].free == [] then w else Taken(w)
  }

  function AllocatedObject(s: Shape, v: Slabs, g: Grant): nat
    requires s.size > 0
  {
    var w := Ready(s, v, g);
    if w.partial == [] || w.partial[0].free == [] then NULL else w.partial[0].free[0]
  }

  // ---- cache_free ----

  /** The first slab whose memory holds the address. */
  function Find(s: Shape, pages: seq<Page>, a: nat): (i: nat)
    ensures i <= |pages| && (i < |pages| ==> InRegion(s, pages[i].base, a))
    ensures forall j :: 0 <= j < i ==> !InRegion(s, pages[j].base, a)
  {
    if pages == [] || InRegion(s, pages[0].base, a) then 0
    else
      var k := Find(s, pages[1..], a);
      assert forall j :: 1 <= j < k + 1 ==> pages[j] == pages[1..][j - 1];
      k + 1
  }

  function GivenBack(p: Page, a: nat): Page {
    p.(free := [a] + p.free)
  }

  function FreedFull(v: Slabs, i: nat, a: nat): Slabs
    requires i < |v.full|
  {
    v.(full := Without(v.full, i), partial := [GivenBack(v.full[i], a)] + v.partial)
  }

  function FreedPartial(s: Shape, v: Slabs, i: nat, a: nat): Slabs
    requires s.size > 0 && i < |v.partial|
  {
    var q := GivenBack(v.partial[i], a);
    if |q.free| == Objects(s) then v.(partial := Without(v.partial, i), empty := [q] + v.empty)
    else v.(partial := v.partial[i := q])
  }

  function Freed(s: Shape, v: Slabs, a: nat): Slabs
    requires s.size > 0
  {
    var i, j := Find(s, v.full, a), Find(s, v.partial, a);
    if i < |v.full| then FreedFull(v, i, a)
    else if j < |v.partial| then FreedPartial(s, v, j, a)
    else v
  }

  // ---- cache_reap ----

  function DropFirst(v: Slabs): Slabs
    requires v.empty != []
  {
    v.(bases := v.bases - {v.empty[0].addr}, empty := v.empty[1..])
  }

  /** Empty slabs are given up while the cache keeps one slab. */
  function Reaped(v: Slabs): Slabs
    decreases |v.empty|
  {
    if v.empty != [] && Count(v) > 1 then Reaped(DropFirst(v)) else v
  }

  // ---- the discipline ----

  ghost predicate AllFree(s: Shape, pages: seq<Page>)
    requires s.size > 0
  {
    forall i {:trigger pages[i]} :: 0 <= i < |pages| ==> |pages[i].free| == Objects(s)
  }

  ghost predicate NoneFree(pages: seq<Page>) {
    forall i {:trigger pages[i]} :: 0 <= i < |pages| ==> pages[i].free == []
  }

  ghost predicate SomeFree(s: Shape, pages: seq<Page>)
    requires s.size > 0
  {
    forall i {:trigger pages[i]} :: 0 <= i < |pages| ==> 0 < |pages[i].free| < Objects(s)
  }

  ghost predicate Disciplined(s: Shape, v: Slabs)
    requires s.size > 0
  {
    NoneFree(v.full) && SomeFree(s, v.partial) && AllFree(s, v.empty)
  }

  function AllAddrs(v: Slabs): multiset<nat> {
    Bag(AddrLists(v.full)) + Bag(AddrLists(v.partial)) + Bag(AddrLists(v.empty))
  }

  /** Each slab is on one list once, in memory of its own, and its free list holds objects of its own. */
  ghost predicate Sound(s: Shape, v: Slabs)
    requires s.size > 0
  {
    && BasesApart(s, v.bases) && Single(AllAddrs(v))
    && PagesOk(s, v.bases, v.full) && PagesOk(s, v.bases, v.partial) && PagesOk(s, v.bases, v.empty)
  }

  function SlotSum(s: Shape, v: Slabs): multiset<nat>
    requires s.size > 0
  {
    Bag(SlotLists(s, v.full)) + Bag(SlotLists(s, v.partial)) + Bag(SlotLists(s, v.empty))
  }

  function FreeSum(v: Slabs): multiset<nat> {
    Bag(FreeLists(v.full)) + Bag(FreeLists(v.partial)) + Bag(FreeLists(v.empty))
  }

  /** What callers hold: all objects but the free ones. */
  function Held(s: Shape, v: Slabs): multiset<nat>
    requires s.size > 0
  {
    SlotSum(s, v) - FreeSum(v)
  }

  /** An object of a slab that is not on the slab's free list. */
  ghost predicate HeldFrom(s: Shape, pages: seq<Page>, i: nat, a: nat)
    requires s.size > 0
  {
    i < |pages| && a in PageSlots(s, pages[i]) && a !in pages[i].free
  }

  // ---- lists under a change of one slab ----

  lemma TailOk(s: Shape, bases: Bases, pages: seq<Page>)
    requires s.size > 0 && PagesOk(s, bases, pages) && pages != []
    ensures PagesOk(s, bases, pages[1..]) && PageOk(s, bases, pages[0])
    ensures SomeFree(s, pages) ==> SomeFree(s, pages[1..])
    ensures AllFree(s, pages) ==> AllFree(s, pages[1..])
  {
    hide PageOk;
    var t := pages[1..];
    assert forall i {:trigger t[i]} :: 0 <= i < |t| ==> t[i] == pages[i + 1];
  }

  lemma WithoutOk(s: Shape, bases: Bases, pages: seq<Page>, i: nat)
    requires s.size > 0 && PagesOk(s, bases, pages) && i < |pages|
    ensures PagesOk(s, bases, Without(pages, i)) && PageOk(s, bases, pages[i])
    ensures SomeFree(s, pages) ==> SomeFree(s, Without(pages, i))
    ensures NoneFree(pages) ==> NoneFree(Without(pages, i))
  {
    hide PageOk;
    var t := Without(pages, i);
    assert forall j {:trigger t[j]} :: 0 <= j < |t| ==> t[j] == pages[if j < i then j else j + 1];
  }

  lemma ConsOk(s: Shape, bases: Bases, q: Page, pages: seq<Page>)
    requires s.size > 0 && PagesOk(s, bases, pages) && PageOk(s, bases, q)
    ensures PagesOk(s, bases, [q] + pages)
    ensures SomeFree(s, pages) && 0 < |q.free| < Objects(s) ==> SomeFree(s, [q] + pages)
    ensures AllFree(s, pages) && |q.free| == Objects(s) ==> AllFree(s, [q] + pages)
    ensures NoneFree(pages) && q.free == [] ==> NoneFree([q] + pages)
  {
    hide PageOk;
    var t := [q] + pages;
    assert forall i {:trigger t[i]} :: 0 <= i < |t| ==> t[i] == if i == 0 then q else pages[i - 1];
  }

  lemma FirstIs(s: Shape, pages: seq<Page>)
    requires s.size > 0 && pages != []
    ensures Bag(AddrLists(pages)) == multiset{pages[0].addr} + Bag(AddrLists(pages[1..]))
  {
    assert pages == [pages[0]] + pages[1..];
    ConsFacts(s, pages[0], pages[1..]);
  }

  // ---- cache_alloc keeps the discipline ----

  lemma ReadyKeeps(s: Shape, v: Slabs, g: Grant)
    requires ShapeOk(s) && Sound(s, v) && Disciplined(s, v)
    requires Refused(g) || Unused(s, v.bases, g.slab, g.memory)
    ensures var w := Ready(s, v, g);
      && Sound(s, w) && NoneFree(w.full) && AllFree(s, w.empty)
      && (w.partial != [] ==> 0 < |w.partial[0].free| <= Objects(s) && SomeFree(s, w.partial[1..]))
      && (w.partial == [] <==> v.partial == [] && v.empty == [] && Refused(g))
  {
    hide Bag, PageSlots, BasesApart, PageOk, Objects;
    var w := Ready(s, v, g);
    ObjectsPositive(s);
    if v.partial != [] {
      TailOk(s, v.bases, v.partial);
    } else if v.empty != [] {
      TailOk(s, v.bases, v.empty);
      ConsOk(s, v.bases, v.empty[0], v.partial);
      FirstIs(s, v.empty);
      ConsFacts(s, v.empty[0], v.partial);
      assert AllAddrs(w) == AllAddrs(v);
    } else if !Refused(g) {
      CreatedSound(s, v, g);
    }
  }

  lemma ObjectsPositive(s: Shape)
    requires ShapeOk(s)
    ensures Objects(s) > 0
  {
  }

  lemma CreatedSound(s: Shape, v: Slabs, g: Grant)
    requires ShapeOk(s) && Sound(s, v) && Unused(s, v.bases, g.slab, g.memory)
    ensures var p := NewPage(s, g.slab, g.memory);
      && Sound(s, v.(bases := v.bases[g.slab := g.memory], partial := [p] + v.partial)) && |p.free| == Objects(s)
  {
    hide Bag, PageSlots, BasesApart, PageOk, Objects, NewPage;
    var p, more := NewPage(s, g.slab, g.memory), v.bases[g.slab := g.memory];
    CreatedPage(s, g.slab, g.memory);
    AddrsKnown(s, v.bases, v.full, g.slab);
    AddrsKnown(s, v.bases, v.partial, g.slab);
    AddrsKnown(s, v.bases, v.empty, g.slab);
    PagesStay(s, v.bases, more, v.full);
    PagesStay(s, v.bases, more, v.partial);
    PagesStay(s, v.bases, more, v.empty);
    NewPageOk(s, more, p);
    BasesGrow(s, v.bases, g.slab, g.memory);
    ConsOk(s, more, p, v.partial);
    ConsFacts(s, p, v.partial);
    assert AllAddrs(v.(bases := more, partial := [p] + v.partial)) == AllAddrs(v) + multiset{g.slab};
  }

  lemma CreatedPage(s: Shape, addr: nat, base: nat)
    requires ShapeOk(s)
    ensures var p := NewPage(s, addr, base);
      p.addr == addr && p.base == base && multiset(p.free) == multiset(PageSlots(s, p)) && |p.free| == Objects(s)
  {
    NewPageFacts(s, addr, base);
    SlotsInRegion(s, NewPage(s, addr, base));
    var p := NewPage(s, addr, base);
    assert |multiset(p.free)| == |p.free| && |multiset(PageSlots(s, p))| == |PageSlots(s, p)|;
  }

  lemma TakenKeeps(s: Shape, v: Slabs)
    requires s.size > 0 && Sound(s, v) && v.partial != [] && v.partial[0].free != []
    ensures Sound(s, Taken(v))
    ensures (NoneFree(v.full) && AllFree(s, v.empty) && SomeFree(s, v.partial[1..])
             && |v.partial[0].free| <= Objects(s)) ==> Disciplined(s, Taken(v))
  {
    hide Bag, PageSlots, BasesApart, PageOk, Objects;
    var p, rest := v.partial[0], v.partial[1..];
    var q := p.(free := p.free[1..]);
    TailOk(s, v.bases, v.partial);
    assert p.free == [p.free[0]] + q.free;
    assert multiset(q.free) <= multiset(PageSlots(s, p)) by {
      assert multiset(p.free) == multiset{p.free[0]} + multiset(q.free);
      PageFree(s, v.bases, p);
    }
    SamePage(s, v.bases, p, q);
    FirstIs(s, v.partial);
    ConsOk(s, v.bases, q, if q.free == [] then v.full else rest);
    ConsFacts(s, q, v.full);
    ConsFacts(s, q, rest);
    assert AllAddrs(Taken(v)) == AllAddrs(v);
  }

  lemma AllocKeeps(s: Shape, v: Slabs, g: Grant)
    requires ShapeOk(s) && Sound(s, v) && Disciplined(s, v)
    requires Refused(g) || Unused(s, v.bases, g.slab, g.memory)
    ensures Sound(s, Allocated(s, v, g)) && Disciplined(s, Allocated(s, v, g))
  {
    hide Sound, Ready, Taken, NoneFree, AllFree, SomeFree, Objects;
    ReadyKeeps(s, v, g);
    var w := Ready(s, v, g);
    if w.partial != [] {
      TakenKeeps(s, w);
    } else {
      ReadyNone(s, v, g);
    }
  }

  lemma ReadyNone(s: Shape, v: Slabs, g: Grant)
    requires s.size > 0 && Ready(s, v, g).partial == []
    ensures Ready(s, v, g) == v
  {
  }

  // ---- cache_free keeps the discipline ----

  /** An object that a caller holds leaves its slab with fewer free objects than it has. */
  lemma HeldLeavesRoom(s: Shape, bases: Bases, p: Page, a: nat)
    requires ShapeOk(s) && PageOk(s, bases, p) && a in PageSlots(s, p) && a !in p.free
    ensures |p.free| < Objects(s)
    ensures multiset(GivenBack(p, a).free) <= multiset(PageSlots(s, p))
  {
    hide Objects, PageSlots;
    SlotsInRegion(s, p);
    PageFree(s, bases, p);
    var x, y := multiset(p.free), multiset(PageSlots(s, p));
    assert a in y && x[a] == 0;
    assert multiset([a] + p.free) == multiset{a} + x;
    assert multiset{a} + x <= y;
    var d := y - (multiset{a} + x);
    assert y == multiset{a} + x + d;
    assert |y| == 1 + |x| + |d|;
  }

  lemma FreedFullKeeps(s: Shape, v: Slabs, i: nat, a: nat)
    requires ShapeOk(s) && Objects(s) >= 2 && Sound(s, v) && Disciplined(s, v) && HeldFrom(s, v.full, i, a)
    ensures Sound(s, FreedFull(v, i, a)) && Disciplined(s, FreedFull(v, i, a))
  {
    hide Bag, PageSlots, BasesApart, PageOk, Objects;
    var p, w := v.full[i], FreedFull(v, i, a);
    var q := GivenBack(p, a);
    WithoutOk(s, v.bases, v.full, i);
    HeldLeavesRoom(s, v.bases, p, a);
    SamePage(s, v.bases, p, q);
    ConsOk(s, v.bases, q, v.partial);
    AtFacts(s, v.full, i, p);
    ConsFacts(s, q, v.partial);
    assert AllAddrs(w) == AllAddrs(v);
  }

  lemma FreedPartialKeeps(s: Shape, v: Slabs, i: nat, a: nat)
    requires ShapeOk(s) && Sound(s, v) && Disciplined(s, v) && HeldFrom(s, v.partial, i, a)
    ensures Sound(s, FreedPartial(s, v, i, a)) && Disciplined(s, FreedPartial(s, v, i, a))
  {
    hide Bag, PageSlots, BasesApart, PageOk, Objects;
    var p, w := v.partial[i], FreedPartial(s, v, i, a);
    var q := GivenBack(p, a);
    WithoutOk(s, v.bases, v.partial, i);
    HeldLeavesRoom(s, v.bases, p, a);
    SamePage(s, v.bases, p, q);
    ConsOk(s, v.bases, q, v.empty);
    AtFacts(s, v.partial, i, q);
    ConsFacts(s, q, v.empty);
    assert AllAddrs(w) == AllAddrs(v);
  }

  /** A slab of free objects only has handed out none. */
  lemma EmptyHoldsNone(s: Shape, bases: Bases, p: Page, a: nat)
    requires ShapeOk(s) && PageOk(s, bases, p) && |p.free| == Objects(s) && a in PageSlots(s, p)
    ensures a in p.free
  {
    if a !in p.free { HeldLeavesRoom(s, bases, p, a); }
  }

  /** The search by address finds the slab an object belongs to. */
  lemma FindIsOwner(s: Shape, v: Slabs, a: nat, full: bool, i: nat)
    requires ShapeOk(s) && Sound(s, v) && HeldFrom(s, if full then v.full else v.partial, i, a)
    ensures full ==> Find(s, v.full, a) == i
    ensures !full ==> Find(s, v.full, a) == |v.full| && Find(s, v.partial, a) == i
  {
    hide Bag, PageSlots, InRegion, Objects;
    var p := if full then v.full[i] else v.partial[i];
    SlotsInRegion(s, p);
    var j, k := Find(s, v.full, a), Find(s, v.partial, a);
    if j < |v.full| { OneOwner(s, v, full, i, true, j, a); }
    if !full && k < |v.partial| { OneOwner(s, v, full, i, false, k, a); }
  }

  lemma OneOwner(s: Shape, v: Slabs, full: bool, i: nat, full': bool, j: nat, a: nat)
    requires s.size > 0 && Sound(s, v)
    requires i < |if full then v.full else v.partial| && j < |if full' then v.full else v.partial|
    requires InRegion(s, (if full then v.full else v.partial)[i].base, a)
    requires InRegion(s, (if full' then v.full else v.partial)[j].base, a)
    ensures full == full' && i == j
  {
    hide Bag, PageSlots, InRegion;
    var p, q := (if full then v.full else v.partial)[i], (if full' then v.full else v.partial)[j];
    assert PageOk(s, v.bases, p) && PageOk(s, v.bases, q);
    if p.addr != q.addr { OneRegion(s, p.base, q.base, a); }
    ListsDistinct(v);
  }

  lemma ListsDistinct(v: Slabs)
    requires Single(AllAddrs(v))
    ensures forall i, j :: 0 <= i < j < |v.full| ==> v.full[i].addr != v.full[j].addr
    ensures forall i, j :: 0 <= i < j < |v.partial| ==> v.partial[i].addr != v.partial[j].addr
    ensures forall i, j :: 0 <= i < j < |v.empty| ==> v.empty[i].addr != v.empty[j].addr
    ensures forall i, j :: 0 <= i < |v.full| && 0 <= j < |v.partial| ==> v.full[i].addr != v.partial[j].addr
    ensures forall i, j :: 0 <= i < |v.full| && 0 <= j < |v.empty| ==> v.full[i].addr != v.empty[j].addr
    ensures forall i, j :: 0 <= i < |v.partial| && 0 <= j < |v.empty| ==> v.partial[i].addr != v.empty[j].addr
  {
    hide Bag;
    var x, y, z := Bag(AddrLists(v.full)), Bag(AddrLists(v.partial)), Bag(AddrLists(v.empty));
    SingleParts(x, y, z);
    ListDistinct(v.full);
    ListDistinct(v.partial);
    ListDistinct(v.empty);
    InBags(v.full);
    InBags(v.partial);
    InBags(v.empty);
  }

  lemma SingleParts(x: multiset<nat>, y: multiset<nat>, z: multiset<nat>)
    requires Single(x + y + z)
    ensures Single(x) && Single(y) && Single(z)
    ensures (forall a :: a in x ==> a !in y && a !in z) && (forall a :: a in y ==> a !in z)
  {
    forall a | a in x ensures x[a] <= 1 && a !in y && a !in z { assert (x + y + z)[a] == x[a] + y[a] + z[a]; }
    forall a | a in y ensures y[a] <= 1 && a !in z { assert (x + y + z)[a] == x[a] + y[a] + z[a]; }
    forall a | a in z ensures z[a] <= 1 { assert (x + y + z)[a] == x[a] + y[a] + z[a]; }
  }

  lemma ListDistinct(pages: seq<Page>)
    requires Single(Bag(AddrLists(pages)))
    ensures forall i, j :: 0 <= i < j < |pages| ==> pages[i].addr != pages[j].addr
  {
    forall i, j | 0 <= i < j < |pages| ensures pages[i].addr != pages[j].addr { AddrsDistinct(pages, i, j); }
  }

  lemma InBags(pages: seq<Page>)
    ensures forall i :: 0 <= i < |pages| ==> pages[i].addr in Bag(AddrLists(pages))
  {
    forall i | 0 <= i < |pages| ensures pages[i].addr in Bag(AddrLists(pages)) {
      InBag(AddrLists(pages), i, pages[i].addr);
    }
  }

  lemma FreeOnSlab(pages: seq<Page>, i: nat, a: nat)
    requires i < |pages| && a in pages[i].free
    ensures a in Bag(FreeLists(pages))
  {
    InBag(FreeLists(pages), i, a);
  }

  /** Every object of every slab has an address of its own. */
  lemma SlotsOnce(s: Shape, v: Slabs)
    requires ShapeOk(s) && Sound(s, v)
    ensures Single(SlotSum(s, v))
  {
    hide Bag, PageOk, BasesApart;
    var pages := v.full + v.partial + v.empty;
    assert SlotLists(s, pages) == SlotLists(s, v.full) + SlotLists(s, v.partial) + SlotLists(s, v.empty);
    assert AddrLists(pages) == AddrLists(v.full) + AddrLists(v.partial) + AddrLists(v.empty);
    BagConcat(SlotLists(s, v.full) + SlotLists(s, v.partial), SlotLists(s, v.empty));
    BagConcat(SlotLists(s, v.full), SlotLists(s, v.partial));
    BagConcat(AddrLists(v.full) + AddrLists(v.partial), AddrLists(v.empty));
    BagConcat(AddrLists(v.full), AddrLists(v.partial));
    SlotsSingle(s, v.bases, pages);
  }

  /** The list and place of the slab a held object is from. */
  lemma Holder(s: Shape, v: Slabs, a: nat) returns (pages: seq<Page>, i: nat)
    requires ShapeOk(s) && Sound(s, v) && a in Held(s, v)
    ensures HeldFrom(s, pages, i, a) && (pages == v.full || pages == v.partial || pages == v.empty)
  {
    hide Bag, PageSlots, PageOk, BasesApart;
    SlotsOnce(s, v);
    assert SlotSum(s, v)[a] == 1 && FreeSum(v)[a] == 0;
    pages := if a in Bag(SlotLists(s, v.full)) then v.full
             else if a in Bag(SlotLists(s, v.partial)) then v.partial else v.empty;
    i := BagOwner(SlotLists(s, pages), a);
    if a in pages[i].free { FreeOnSlab(pages, i, a); }
  }

  /** What a caller holds comes from a full or a partial slab. */
  lemma HolderOf(s: Shape, v: Slabs, a: nat) returns (full: bool, i: nat)
    requires ShapeOk(s) && Sound(s, v) && Disciplined(s, v) && a in Held(s, v)
    ensures HeldFrom(s, if full then v.full else v.partial, i, a)
  {
    hide PageSlots, BasesApart, PageOk, Objects, Held;
    var pages;
    pages, i := Holder(s, v, a);
    if pages == v.empty { EmptyHoldsNone(s, v.bases, v.empty[i], a); }
    full := pages == v.full;
  }

  lemma FreeKeeps(s: Shape, v: Slabs, a: nat)
    requires ShapeOk(s) && Objects(s) >= 2 && Sound(s, v) && Disciplined(s, v) && a in Held(s, v)
    ensures Sound(s, Freed(s, v, a)) && Disciplined(s, Freed(s, v, a))
  {
    hide Sound, Disciplined, HeldFrom, PageSlots, Objects, Held;
    var full, i := HolderOf(s, v, a);
    FindIsOwner(s, v, a, full, i);
    HeldIndex(s, if full then v.full else v.partial, i, a);
    if full { FreedFullKeeps(s, v, i, a); } else { FreedPartialKeeps(s, v, i, a); }
  }

  lemma HeldIndex(s: Shape, pages: seq<Page>, i: nat, a: nat)
    requires s.size > 0 && HeldFrom(s, pages, i, a)
    ensures i < |pages|
  {
  }

  // ---- cache_reap keeps the discipline ----

  lemma DropKeeps(s: Shape, v: Slabs)
    requires s.size > 0 && Sound(s, v) && Disciplined(s, v) && v.empty != []
    ensures Sound(s, DropFirst(v)) && Disciplined(s, DropFirst(v))
  {
    hide Bag, PageSlots, PageOk, Objects;
    var p, w := v.empty[0], DropFirst(v);
    TailOk(s, v.bases, v.empty);
    FirstIs(s, v.empty);
    assert AllAddrs(v) == AllAddrs(w) + multiset{p.addr};
    SingleLess(AllAddrs(v), AllAddrs(w), p.addr);
    NotInBag(v.full, p.addr);
    NotInBag(v.partial, p.addr);
    NotInBag(v.empty[1..], p.addr);
    PagesStay(s, v.bases, w.bases, v.full);
    PagesStay(s, v.bases, w.bases, v.partial);
    PagesStay(s, v.bases, w.bases, v.empty[1..]);
  }

  lemma {:induction false} ReapKeeps(s: Shape, v: Slabs)
    requires s.size > 0 && Sound(s, v) && Disciplined(s, v)
    ensures Sound(s, Reaped(v)) && Disciplined(s, Reaped(v))
    ensures Reaped(v).full == v.full && Reaped(v).partial == v.partial
    ensures Reaped(v).empty == [] || Count(Reaped(v)) <= 1
    decreases |v.empty|
  {
    hide Sound, Disciplined;
    if v.empty != [] && Count(v) > 1 {
      DropKeeps(s, v);
      ReapKeeps(s, DropFirst(v));
    }
  }

  // ---- what callers hold ----

  lemma {:induction false} FreeWithinSlots(s: Shape, bases: Bases, pages: seq<Page>)
    requires s.size > 0 && PagesOk(s, bases, pages)
    ensures Bag(FreeLists(pages)) <= Bag(SlotLists(s, pages))
  {
    hide PageSlots;
    if pages == [] {
      assert FreeLists(pages) == [];
    } else {
      TailOk(s, bases, pages);
      FreeWithinSlots(s, bases, pages[1..]);
      assert pages == [pages[0]] + pages[1..];
      ConsFacts(s, pages[0], pages[1..]);
    }
  }

  lemma FreeWithin(s: Shape, v: Slabs)
    requires s.size > 0 && Sound(s, v)
    ensures FreeSum(v) <= SlotSum(s, v)
  {
    hide Bag, PageOk, BasesApart;
    FreeWithinSlots(s, v.bases, v.full);
    FreeWithinSlots(s, v.bases, v.partial);
    FreeWithinSlots(s, v.bases, v.empty);
  }

  /** The counters of a cache: objects in use and free objects. */
  function ActiveCount(s: Shape, v: Slabs): int
    requires s.size > 0
  {
    InUse(s, v.full) + InUse(s, v.partial) + InUse(s, v.empty)
  }

  function FreeCount(v: Slabs): nat {
    |FreeSum(v)|
  }

  lemma {:induction false} UseOfList(s: Shape, pages: seq<Page>)
    requires ShapeOk(s)
    ensures InUse(s, pages) == |Bag(SlotLists(s, pages))| - |Bag(FreeLists(pages))|
  {
    hide PageSlots, Objects;
    if pages == [] {
      assert FreeLists(pages) == [] && SlotLists(s, pages) == [];
    } else {
      UseOfList(s, pages[1..]);
      SlotsInRegion(s, pages[0]);
      assert pages == [pages[0]] + pages[1..];
      ConsFacts(s, pages[0], pages[1..]);
    }
  }

  /** Objects in use, by the counts of the slabs, are those that callers hold. */
  lemma ActiveIsHeld(s: Shape, v: Slabs)
    requires ShapeOk(s) && Sound(s, v)
    ensures ActiveCount(s, v) == |Held(s, v)|
  {
    hide Bag, PagesOk, BasesApart, InUse, SlotLists, FreeLists;
    FreeWithin(s, v);
    UseOfList(s, v.full);
    UseOfList(s, v.partial);
    UseOfList(s, v.empty);
    assert SlotSum(s, v) == Held(s, v) + FreeSum(v);
  }

  /** Bringing a slab to the front of the partial list hands out nothing. */
  lemma ReadyHolds(s: Shape, v: Slabs, g: Grant)
    requires ShapeOk(s)
    ensures var w := Ready(s, v, g);
      exists x :: SlotSum(s, w) == SlotSum(s, v) + x && FreeSum(w) == FreeSum(v) + x
  {
    hide Bag, PageSlots, Objects, FreeLists, SlotLists;
    var w := Ready(s, v, g);
    var x: multiset<nat> := multiset{};
    if v.partial == [] && v.empty != [] {
      assert v.empty == [v.empty[0]] + v.empty[1..];
      ConsFacts(s, v.empty[0], v.empty[1..]);
      ConsFacts(s, v.empty[0], v.partial);
    } else if v.partial == [] && !Refused(g) {
      var p := NewPage(s, g.slab, g.memory);
      CreatedPage(s, g.slab, g.memory);
      ConsFacts(s, p, v.partial);
      x := multiset(p.free);
    }
    assert SlotSum(s, w) == SlotSum(s, v) + x && FreeSum(w) == FreeSum(v) + x;
  }

  lemma TakenHolds(s: Shape, v: Slabs)
    requires s.size > 0 && v.partial != [] && v.partial[0].free != []
    ensures SlotSum(s, Taken(v)) == SlotSum(s, v)
    ensures FreeSum(v) == FreeSum(Taken(v)) + multiset{v.partial[0].free[0]}
  {
    hide Bag, PageSlots, FreeLists, SlotLists, InUse, Used, AddrLists;
    var p, rest := v.partial[0], v.partial[1..];
    var q, a := p.(free := p.free[1..]), p.free[0];
    assert v.partial == [p] + rest && p.free == [a] + q.free;
    assert multiset(p.free) == multiset{a} + multiset(q.free);
    PageSlotsIs(s, p);
    PageSlotsIs(s, q);
    ConsFacts(s, p, rest);
    ConsFacts(s, q, rest);
    var x, y, z := Bag(FreeLists(v.full)), Bag(FreeLists(rest)), Bag(FreeLists(v.empty));
    var x', y', z' := Bag(SlotLists(s, v.full)), Bag(SlotLists(s, rest)), Bag(SlotLists(s, v.empty));
    SumMoves(x, multiset{a}, multiset(q.free), y, z);
    SumMoves(x', multiset{}, multiset(PageSlots(s, p)), y', z');
    ConsFacts(s, q, v.full);
  }

  lemma SumMoves(x: multiset<nat>, a: multiset<nat>, q: multiset<nat>, y: multiset<nat>, z: multiset<nat>)
    ensures x + ((a + q) + y) + z == (x + (q + y) + z) + a
    ensures x + (q + y) + z == (q + x) + y + z
  {
  }

  lemma TakenActive(s: Shape, v: Slabs)
    requires s.size > 0 && v.partial != [] && v.partial[0].free != []
    ensures ActiveCount(s, Taken(v)) == ActiveCount(s, v) + 1
  {
    hide Bag, PageSlots, FreeLists, SlotLists, InUse, Objects;
    var p, rest := v.partial[0], v.partial[1..];
    var q := p.(free := p.free[1..]);
    assert v.partial == [p] + rest;
    ConsFacts(s, p, rest);
    ConsFacts(s, q, rest);
    ConsFacts(s, q, v.full);
  }

  /** Only a new slab brings free objects. */
  function Brought(s: Shape, v: Slabs, g: Grant): nat
    requires s.size > 0
  {
    if v.partial == [] && v.empty == [] && !Refused(g) then Objects(s) else 0
  }

  lemma ReadyCounts(s: Shape, v: Slabs, g: Grant)
    requires ShapeOk(s)
    ensures ActiveCount(s, Ready(s, v, g)) == ActiveCount(s, v)
    ensures FreeCount(Ready(s, v, g)) == FreeCount(v) + Brought(s, v, g)
    ensures Count(Ready(s, v, g)) == Count(v) + if Brought(s, v, g) > 0 then 1 else 0
  {
    hide Bag, PageSlots, Objects, FreeLists, SlotLists, AddrLists, InUse, NewPage;
    ObjectsPositive(s);
    if v.partial == [] && v.empty != [] {
      var p, rest := v.empty[0], v.empty[1..];
      assert v.empty == [p] + rest;
      ConsFacts(s, p, rest);
      ConsFacts(s, p, v.partial);
      SumMoves(Bag(FreeLists(v.full)), multiset{}, multiset(p.free), Bag(FreeLists(v.partial)), Bag(FreeLists(rest)));
      assert FreeSum(Ready(s, v, g)) == FreeSum(v);
    } else if v.partial == [] && !Refused(g) {
      var p := NewPage(s, g.slab, g.memory);
      CreatedPage(s, g.slab, g.memory);
      ConsFacts(s, p, v.partial);
      assert FreeSum(Ready(s, v, g)) == FreeSum(v) + multiset(p.free);
    }
  }

  lemma FreedCounts(s: Shape, v: Slabs, full: bool, i: nat, a: nat)
    requires s.size > 0 && i < |if full then v.full else v.partial|
    ensures var w := if full then FreedFull(v, i, a) else FreedPartial(s, v, i, a);
      ActiveCount(s, w) == ActiveCount(s, v) - 1 && FreeCount(w) == FreeCount(v) + 1 && Count(w) == Count(v)
  {
    hide Bag, PageSlots, Objects, FreeLists, SlotLists, InUse;
    var pages := if full then v.full else v.partial;
    var q := GivenBack(pages[i], a);
    FreedBags(s, v, full, i, a);
    AtFacts(s, pages, i, q);
    ConsFacts(s, q, v.partial);
    ConsFacts(s, q, v.empty);
  }

  lemma HoldsMore(slots: multiset<nat>, free: multiset<nat>, slots': multiset<nat>, free': multiset<nat>, x: multiset<nat>,
                  y: multiset<nat>)
    requires slots' == slots + x && free' + y == free + x && free <= slots
    ensures slots' - free' == slots - free + y
  {
    var d := slots - free;
    assert slots == free + d;
    assert slots' == (free + x) + d;
    assert (free' + y) + d == free' + (y + d);
    assert free' + (y + d) - free' == y + d;
  }

  function Just(a: nat): multiset<nat> {
    if a == NULL then multiset{} else multiset{a}
  }

  /** cache_alloc adds to what callers hold one object that nobody held, or nothing. */
  lemma AllocHolds(s: Shape, v: Slabs, g: Grant)
    requires ShapeOk(s) && Sound(s, v) && Disciplined(s, v)
    requires Refused(g) || Unused(s, v.bases, g.slab, g.memory)
    ensures var a := AllocatedObject(s, v, g);
      && Held(s, Allocated(s, v, g)) == Held(s, v) + Just(a) && (a != NULL ==> a !in Held(s, v))
    ensures AllocatedObject(s, v, g) == NULL <==> v.partial == [] && v.empty == [] && Refused(g)
  {
    hide Ready, Taken, SlotSum, FreeSum, Sound, Disciplined, NoneFree, SomeFree, AllFree, Objects;
    var w := Ready(s, v, g);
    ReadyKeeps(s, v, g);
    ReadyHolds(s, v, g);
    var x :| SlotSum(s, w) == SlotSum(s, v) + x && FreeSum(w) == FreeSum(v) + x;
    FreeWithin(s, v);
    if w.partial != [] {
      TakenHolds(s, w);
      HoldsMore(SlotSum(s, v), FreeSum(v), SlotSum(s, Taken(w)), FreeSum(Taken(w)), x, multiset{w.partial[0].free[0]});
      ObjectNotNull(s, w);
      AllocKeeps(s, v, g);
      SlotsOnce(s, Allocated(s, v, g));
      OnceHeld(SlotSum(s, Taken(w)), FreeSum(Taken(w)), Held(s, v), w.partial[0].free[0]);
    } else {
      HoldsMore(SlotSum(s, v), FreeSum(v), SlotSum(s, w), FreeSum(w), x, multiset{});
    }
  }

  /** a is the first free object of the first of these partial slabs, which goes to the front of the full list
      if that was its last one. */
  ghost predicate TakenFrom(v: Slabs, partial: seq<Page>, empty: seq<Page>, w: Slabs, a: nat) {
    && partial != [] && partial[0].free != [] && a == partial[0].free[0] && w.empty == empty
    && var q := partial[0].(free := partial[0].free[1..]);
       if |partial[0].free| == 1 then w.full == [q] + v.full && w.partial == partial[1..]
       else w.full == v.full && w.partial == [q] + partial[1..]
  }

  /** An object is taken from the first partial slab; only if there is none, from the first empty one; and only
      if there is neither, a slab is requested, whose last object is handed out first. */
  ghost predicate PartialFirst(s: Shape, v: Slabs, g: Grant, w: Slabs, a: nat)
    requires s.size > 0
  {
    if v.partial != [] then TakenFrom(v, v.partial, v.empty, w, a) && w.bases == v.bases
    else if v.empty != [] then TakenFrom(v, [v.empty[0]], v.empty[1..], w, a) && w.bases == v.bases
    else if g.slab == 0 || g.memory == 0 then w == v && a == 0
    else
      var p := NewPage(s, g.slab, g.memory);
      TakenFrom(v, [p], [], w, a) && w.bases == v.bases[g.slab := g.memory] && a == g.memory + (|p.free| - 1) * s.size
  }

  lemma AllocIsPartialFirst(s: Shape, v: Slabs, g: Grant)
    requires ShapeOk(s) && Disciplined(s, v)
    ensures PartialFirst(s, v, g, Allocated(s, v, g), AllocatedObject(s, v, g))
  {
    if v.partial == [] && v.empty == [] && !Refused(g) {
      NewPageIsFilled(s, g.slab, g.memory);
      CreatedPage(s, g.slab, g.memory);
    }
    assert v.partial != [] ==> v.partial[0].free != [];
    assert v.empty != [] ==> |v.empty[0].free| == Objects(s);
    hide NewPage, Objects, NoneFree, SomeFree, AllFree;
  }

  /** Reaping takes empty slabs from the front, all of them if there are other slabs, and else all but one. */
  lemma {:induction false} ReapedAre(v: Slabs)
    ensures var w := Reaped(v);
      && w.full == v.full && w.partial == v.partial
      && |w.empty| == (if v.empty != [] && |v.full| + |v.partial| == 0 then 1 else 0)
      && w.empty == v.empty[|v.empty| - |w.empty|..]
    decreases |v.empty|
  {
    if v.empty != [] && Count(v) > 1 { ReapedAre(DropFirst(v)); }
  }

  lemma OnceHeld(slots: multiset<nat>, free: multiset<nat>, held: multiset<nat>, a: nat)
    requires Single(slots) && slots - free == held + multiset{a}
    ensures a !in held
  {
    assert (slots - free)[a] <= slots[a];
    assert (held + multiset{a})[a] == held[a] + 1;
  }

  lemma ObjectNotNull(s: Shape, v: Slabs)
    requires ShapeOk(s) && Sound(s, v) && v.partial != [] && v.partial[0].free != []
    ensures v.partial[0].free[0] != NULL
  {
    hide PageSlots, Bag;
    var p := v.partial[0];
    assert PageOk(s, v.bases, p);
    var a := p.free[0];
    SlotsInRegion(s, p);
    assert multiset(PageSlots(s, p))[a] >= multiset(p.free)[a] > 0;
    assert a in PageSlots(s, p);
    assert p.addr in v.bases && v.bases[p.addr] != NULL;
  }

  lemma GivenHolds(s: Shape, p: Page, a: nat)
    requires s.size > 0
    ensures PageSlots(s, GivenBack(p, a)) == PageSlots(s, p)
    ensures multiset(GivenBack(p, a).free) == multiset(p.free) + multiset{a}
  {
    assert multiset([a] + p.free) == multiset{a} + multiset(p.free);
  }

  lemma FreedBags(s: Shape, v: Slabs, full: bool, i: nat, a: nat)
    requires s.size > 0 && i < |if full then v.full else v.partial|
    ensures var w := if full then FreedFull(v, i, a) else FreedPartial(s, v, i, a);
      SlotSum(s, w) == SlotSum(s, v) && FreeSum(w) == FreeSum(v) + multiset{a}
  {
    hide Bag, PageSlots, Objects, FreeLists, SlotLists, GivenBack;
    var pages := if full then v.full else v.partial;
    var q := GivenBack(pages[i], a);
    GivenHolds(s, pages[i], a);
    AtFacts(s, pages, i, q);
    ConsFacts(s, q, v.partial);
    ConsFacts(s, q, v.empty);
  }

  lemma HoldsLess(slots: multiset<nat>, free: multiset<nat>, free': multiset<nat>, a: nat)
    requires free' == free + multiset{a}
    ensures slots - free' == slots - free - multiset{a}
  {
  }

  /** cache_free takes exactly the freed object from what callers hold. */
  lemma FreeHolds(s: Shape, v: Slabs, a: nat)
    requires ShapeOk(s) && Sound(s, v) && Disciplined(s, v) && a in Held(s, v)
    ensures Held(s, Freed(s, v, a)) == Held(s, v) - multiset{a}
  {
    hide Sound, Disciplined, PageSlots, Objects, SlotSum, FreeSum, FreedFull, FreedPartial, Find;
    var full, i := HolderOf(s, v, a);
    FindIsOwner(s, v, a, full, i);
    FreedBags(s, v, full, i, a);
    var w := if full then FreedFull(v, i, a) else FreedPartial(s, v, i, a);
    assert Freed(s, v, a) == w;
    HoldsLess(SlotSum(s, v), FreeSum(v), FreeSum(w), a);
  }

  lemma {:induction false} ReapHolds(s: Shape, v: Slabs)
    requires ShapeOk(s) && Sound(s, v) && Disciplined(s, v)
    ensures Held(s, Reaped(v)) == Held(s, v)
    decreases |v.empty|
  {
    hide Sound, Disciplined, Held;
    if v.empty != [] && Count(v) > 1 {
      DropKeeps(s, v);
      DropHolds(s, v);
      ReapHolds(s, DropFirst(v));
    }
  }

  lemma DropHolds(s: Shape, v: Slabs)
    requires ShapeOk(s) && Sound(s, v) && Disciplined(s, v) && v.empty != []
    ensures Held(s, DropFirst(v)) == Held(s, v)
    ensures FreeSum(v) == FreeSum(DropFirst(v)) + multiset(v.empty[0].free)
    ensures ActiveCount(s, DropFirst(v)) == ActiveCount(s, v)
  {
    hide Bag, PageSlots, Objects, FreeLists, SlotLists, BasesApart, InUse;
    var p, rest := v.empty[0], v.empty[1..];
    assert v.empty == [p] + rest;
    TailOk(s, v.bases, v.empty);
    ConsFacts(s, p, rest);
    SlotsInRegion(s, p);
    PageFree(s, v.bases, p);
    SameSize(multiset(p.free), multiset(PageSlots(s, p)));
    FreeWithin(s, v);
    assert SlotSum(s, v) == SlotSum(s, DropFirst(v)) + multiset(p.free);
  }

  // ---- runs ----

  datatype Op = Alloc(grant: Grant) | Free(obj: nat) | Reap

  ghost predicate Legal(s: Shape, v: Slabs, op: Op)
    requires s.size > 0
  {
    match op
    case Alloc(g) => Refused(g) || Unused(s, v.bases, g.slab, g.memory)
    case Free(a) => a in Held(s, v)
    case Reap => true
  }

  function Step(s: Shape, v: Slabs, op: Op): Slabs
    requires s.size > 0
  {
    match op
    case Alloc(g) => Allocated(s, v, g)
    case Free(a) => Freed(s, v, a)
    case Reap => Reaped(v)
  }

  function Run(s: Shape, v: Slabs, ops: seq<Op>): Slabs
    requires s.size > 0
    decreases |ops|
  {
    if ops == [] then v else Run(s, Step(s, v, ops[0]), ops[1..])
  }

  ghost predicate LegalRun(s: Shape, v: Slabs, ops: seq<Op>)
    requires s.size > 0
    decreases |ops|
  {
    ops == [] || (Legal(s, v, ops[0]) && LegalRun(s, Step(s, v, ops[0]), ops[1..]))
  }

  lemma {:induction false} RunKeepsDiscipline(s: Shape, v: Slabs, ops: seq<Op>)
    requires ShapeOk(s) && Objects(s) >= 2 && Sound(s, v) && Disciplined(s, v) && LegalRun(s, v, ops)
    ensures Sound(s, Run(s, v, ops)) && Disciplined(s, Run(s, v, ops))
    decreases |ops|
  {
    hide Sound, Disciplined, Objects, Allocated, Freed, Reaped, Held;
    if ops != [] {
      match ops[0] {
        case Alloc(g) => AllocKeeps(s, v, g);
        case Free(a) => FreeKeeps(s, v, a);
        case Reap => ReapKeeps(s, v);
      }
      RunKeepsDiscipline(s, Step(s, v, ops[0]), ops[1..]);
    }
  }

  lemma NoneSound(s: Shape)
    requires s.size > 0
    ensures Sound(s, NONE) && Disciplined(s, NONE)
  {
    assert AddrLists([]) == [];
  }

  /** Without an object per slab, a new slab stays on the partial list and is never used. */
  lemma NoObjectBreaksIt(s: Shape) returns (ops: seq<Op>)
    requires s.size > 0 && Objects(s) == 0
    ensures LegalRun(s, NONE, ops) && !Disciplined(s, Run(s, NONE, ops))
  {
    var p, alloc := NewPage(s, 1, 1), Alloc(Grant(1, 1));
    assert Legal(s, NONE, alloc);
    var v := Step(s, NONE, alloc);
    ops := [alloc];
    OneStep(s, NONE, alloc);
    assert v.partial == [p] + [] && p.free == [];
  }

  lemma OneStep(s: Shape, v: Slabs, a: Op)
    requires s.size > 0 && Legal(s, v, a)
    ensures LegalRun(s, v, [a]) && Run(s, v, [a]) == Step(s, v, a)
  {
    var w := Step(s, v, a);
    hide Legal, Step;
    assert [a][1..] == [];
    assert LegalRun(s, w, []) && Run(s, w, []) == w;
  }

  lemma TwoSteps(s: Shape, v: Slabs, a: Op, b: Op)
    requires s.size > 0 && Legal(s, v, a) && Legal(s, Step(s, v, a), b)
    ensures LegalRun(s, v, [a, b]) && Run(s, v, [a, b]) == Step(s, Step(s, v, a), b)
  {
    OneStep(s, Step(s, v, a), b);
    hide Legal, Step;
    assert [a, b][1..] == [b];
  }

  /** With one object per slab, a slab that was full and is freed stays on the partial list, all free. */
  lemma OneObjectBreaksIt(s: Shape) returns (ops: seq<Op>)
    requires s.size > 0 && Objects(s) == 1
    ensures LegalRun(s, NONE, ops) && !Disciplined(s, Run(s, NONE, ops))
  {
    hide Slots, Held;
    var p, alloc := NewPage(s, 1, 1), Alloc(Grant(1, 1));
    assert Legal(s, NONE, alloc);
    var v := Step(s, NONE, alloc);
    var a := OneObject(s, p);
    var full := p.(free := []);
    assert v == Slabs(map[1 := 1], [full], [], []) by {
      assert p.free[1..] == [] && ([p] + [])[1..] == [] && [full] + [] == [full];
    }
    OneHeld(s, v, full, a);
    var free := Free(a);
    assert Legal(s, v, free);
    var w := Step(s, v, free);
    assert Find(s, v.full, a) == 0;
    assert w.partial[0].free == [a];
    ops := [alloc, free];
    TwoSteps(s, NONE, alloc, free);
  }

  lemma OneHeld(s: Shape, v: Slabs, p: Page, a: nat)
    requires s.size > 0 && v.full == [p] && v.partial == [] && v.empty == [] && p.free == [] && a in PageSlots(s, p)
    ensures a in Held(s, v)
  {
    ConsFacts(s, p, []);
    assert [p] + [] == [p];
    assert SlotLists(s, []) == [] && FreeLists([]) == [];
    assert a in multiset(PageSlots(s, p));
  }

  lemma OneObject(s: Shape, p: Page) returns (a: nat)
    requires s.size > 0 && Objects(s) == 1 && p == NewPage(s, 1, 1)
    ensures p.free == [a] && a in PageSlots(s, p) && a in PageSlots(s, p.(free := [])) && InRegion(s, p.base, a)
  {
    SlotsInRegion(s, p);
    BackwardsSame(Slots(1, s.size, Objects(s)));
    a := p.free[0];
    assert a in multiset(p.free);
  }

  /** The discipline holds over all runs exactly for caches with at least two objects per slab. */
  lemma DisciplineIff(s: Shape)
    requires s.size > 0
    ensures (forall ops :: LegalRun(s, NONE, ops) ==> Disciplined(s, Run(s, NONE, ops))) <==> Objects(s) >= 2
  {
    hide Disciplined, LegalRun, Run, Objects, Sound;
    if Objects(s) >= 2 {
      TwoIsSome(s);
      NoneSound(s);
      forall ops | LegalRun(s, NONE, ops) ensures Disciplined(s, Run(s, NONE, ops)) {
        RunKeepsDiscipline(s, NONE, ops);
      }
    } else if Objects(s) == 1 {
      var ops := OneObjectBreaksIt(s);
    } else {
      var ops := NoObjectBreaksIt(s);
    }
  }

  lemma TwoIsSome(s: Shape)
    requires s.size > 0 && Objects(s) >= 2
    ensures ShapeOk(s)
  {
  }

  /** cache_create always takes one 4096-byte block per slab, so this is a bound on the object size. */
  lemma TwoObjectsIff(size: nat)
    requires size > 0
    ensures Objects(Shape(size, 0)) >= 2 <==> size <= 2048
  {
    Pow2Step(0);
    assert Span(Shape(size, 0)) == 4096;
    if size <= 2048 {
      var q := 4096 / size;
      assert 4096 == q * size + 4096 % size;
      if q <= 1 { MulMonotone(q, 1, size); }
    } else {
      if size <= 4096 { DivUnique(4096, size, 1, 4096 - size); } else { DivUnique(4096, size, 0, 4096); }
    }
  }
}
