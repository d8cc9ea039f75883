/** The free objects of slabs in memory: each links to the next one on the free list of its slab and carries
    the mark of the allocator. What callers do with the objects they hold does not matter. */
module SlabObjects {
  import opened ObjectChains
  import opened ObjectPages
  import opened SlabLists
  import opened Wrappers

  const SLAB_MAGIC: nat := 0x5AB1234

  ghost predicate ThreadedList(o: ObjectMemory, pages: seq<Page>) {
    forall i {:trigger pages[i]} :: 0 <= i < |pages| ==> Chained(o, pages[i].free, SLAB_MAGIC)
  }

  ghost predicate Threaded(o: ObjectMemory, v: Slabs) {
    ThreadedList(o, v.full) && ThreadedList(o, v.partial) && ThreadedList(o, v.empty)
  }

  // ---- lists of slabs ----

  lemma ThreadedCons(o: ObjectMemory, q: Page, pages: seq<Page>)
    requires ThreadedList(o, pages) && Chained(o, q.free, SLAB_MAGIC)
    ensures ThreadedList(o, [q] + pages)
  {
    var t := [q] + pages;
    assert forall i {:trigger t[i]} :: 0 <= i < |t| ==> t[i] == if i == 0 then q else pages[i - 1];
  }

  lemma ThreadedWithout(o: ObjectMemory, pages: seq<Page>, i: nat)
    requires ThreadedList(o, pages) && i < |pages|
    ensures ThreadedList(o, Without(pages, i)) && Chained(o, pages[i].free, SLAB_MAGIC)
  {
    var t := Without(pages, i);
    assert forall j {:trigger t[j]} :: 0 <= j < |t| ==> t[j] == pages[if j < i then j else j + 1];
  }

  lemma ThreadedTail(o: ObjectMemory, pages: seq<Page>)
    requires ThreadedList(o, pages) && pages != []
    ensures ThreadedList(o, pages[1..]) && Chained(o, pages[0].free, SLAB_MAGIC)
  {
    ThreadedWithout(o, pages, 0);
    assert Without(pages, 0) == pages[1..];
  }

  lemma ThreadedElsewhere(o: ObjectMemory, m: ObjectMemory, pages: seq<Page>)
    requires ThreadedList(o, pages)
    requires forall a :: a in Bag(FreeLists(pages)) && a in o ==> a in m && m[a] == o[a]
    ensures ThreadedList(m, pages)
  {
    hide Bag, Chained;
    forall i {:trigger pages[i]} | 0 <= i < |pages| ensures Chained(m, pages[i].free, SLAB_MAGIC) {
      assert FreeLists(pages)[i] == pages[i].free;
      forall a | a in pages[i].free ensures a in Bag(FreeLists(pages)) { InBag(FreeLists(pages), i, a); }
      ChainElsewhere(o, m, pages[i].free, SLAB_MAGIC);
    }
  }

  // ---- cache_alloc ----

  /** The first free object links to the second and carries the mark. */
  lemma TakenThreaded(o: ObjectMemory, v: Slabs)
    requires Threaded(o, v) && v.partial != [] && v.partial[0].free != []
    ensures var free := v.partial[0].free;
      free[0] != NULL && free[0] in o && o[free[0]] == Object(Head(free[1..]), SLAB_MAGIC)
    ensures Threaded(o, Taken(v))
  {
    hide Chained, ThreadedList;
    var p := v.partial[0];
    var q := p.(free := p.free[1..]);
    ThreadedTail(o, v.partial);
    ChainTail(o, p.free, SLAB_MAGIC);
    ThreadedCons(o, q, v.full);
    ThreadedCons(o, q, v.partial[1..]);
  }

  lemma ReadyThreaded(o: ObjectMemory, s: Shape, v: Slabs, g: Grant)
    requires s.size > 0 && Threaded(o, v) && (v.partial != [] || v.empty != [] || Refused(g))
    ensures Threaded(o, Ready(s, v, g))
  {
    hide Chained, ThreadedList;
    if v.partial == [] && v.empty != [] {
      ThreadedTail(o, v.empty);
      ThreadedCons(o, v.empty[0], v.partial);
    }
  }

  /** The objects of a new slab are written outside the free objects of all others. */
  lemma CreatedThreaded(o: ObjectMemory, m: ObjectMemory, s: Shape, v: Slabs, g: Grant)
    requires ShapeOk(s) && Sound(s, v) && Threaded(o, v) && Unused(s, v.bases, g.slab, g.memory)
    requires v.partial == [] && v.empty == [] && !Refused(g)
    requires OnlyIn(s, g.memory, m, o) && Linked(m, g.memory, s.size, Objects(s), SLAB_MAGIC)
    ensures Threaded(m, Ready(s, v, g))
  {
    hide Chained, ThreadedList, Sound, Bag;
    FreeOutside(s, v, g.slab, g.memory);
    ThreadedElsewhere(o, m, v.full);
    ThreadedElsewhere(o, m, v.partial);
    ThreadedElsewhere(o, m, v.empty);
    ThreadedCons(m, NewPage(s, g.slab, g.memory), v.partial);
  }

  lemma FreeOutside(s: Shape, v: Slabs, addr: nat, base: nat)
    requires ShapeOk(s) && Sound(s, v) && Unused(s, v.bases, addr, base)
    ensures forall a :: a in FreeSum(v) ==> !InRegion(s, base, a)
  {
    hide Bag, Unused, InRegion;
    forall a | a in FreeSum(v) ensures !InRegion(s, base, a) {
      if a in Bag(FreeLists(v.full)) { FreeOutsideList(s, v, v.full, addr, base, a); }
      else if a in Bag(FreeLists(v.partial)) { FreeOutsideList(s, v, v.partial, addr, base, a); }
      else { FreeOutsideList(s, v, v.empty, addr, base, a); }
    }
  }

  lemma FreeOutsideList(s: Shape, v: Slabs, pages: seq<Page>, addr: nat, base: nat, a: nat)
    requires ShapeOk(s) && PagesOk(s, v.bases, pages) && Unused(s, v.bases, addr, base) && a in Bag(FreeLists(pages))
    ensures !InRegion(s, base, a)
  {
    hide Bag, PageSlots, InRegion, Objects;
    var i := BagOwner(FreeLists(pages), a);
    var p := pages[i];
    assert PageOk(s, v.bases, p);
    FreeIsSlot(s, v.bases, p, a);
    SlotsInRegion(s, p);
    assert RegionsApart(s, base, v.bases[p.addr]);
    if InRegion(s, base, a) { OneRegion(s, base, p.base, a); }
  }

  lemma FreeIsSlot(s: Shape, bases: Bases, p: Page, a: nat)
    requires s.size > 0 && PageOk(s, bases, p) && a in p.free
    ensures a in PageSlots(s, p)
  {
    hide PageSlots;
    assert multiset(p.free)[a] <= multiset(PageSlots(s, p))[a];
    assert a in multiset(p.free);
  }

  // ---- cache_free ----

  /** What a caller holds is on no free list. */
  lemma HeldIsNotFree(s: Shape, v: Slabs, a: nat)
    requires ShapeOk(s) && Sound(s, v) && a in Held(s, v)
    ensures a !in FreeSum(v)
  {
    hide Sound, SlotSum, FreeSum;
    SlotsOnce(s, v);
    assert (SlotSum(s, v) - FreeSum(v))[a] > 0;
  }

  lemma HeldNotNull(s: Shape, v: Slabs, full: bool, i: nat, a: nat)
    requires ShapeOk(s) && Sound(s, v) && HeldFrom(s, if full then v.full else v.partial, i, a)
    ensures a != NULL
  {
    hide PageSlots, Objects, Bag;
    var p := if full then v.full[i] else v.partial[i];
    assert PageOk(s, v.bases, p);
    SlotsInRegion(s, p);
  }

  lemma GivenThreaded(o: ObjectMemory, m: ObjectMemory, pages: seq<Page>, i: nat, a: nat)
    requires ThreadedList(o, pages) && i < |pages| && a !in Bag(FreeLists(pages)) && a != NULL
    requires m == o[a := Object(Head(pages[i].free), SLAB_MAGIC)]
    ensures Chained(m, GivenBack(pages[i], a).free, SLAB_MAGIC)
    ensures ThreadedList(m, Without(pages, i)) && ThreadedList(m, pages[i := GivenBack(pages[i], a)])
  {
    hide Bag, Chained;
    NotOnLists(FreeLists(pages), a);
    assert FreeLists(pages)[i] == pages[i].free;
    ChainCons(o, a, pages[i].free, SLAB_MAGIC);
    ThreadedElsewhere(o, m, pages);
    ThreadedWithout(m, pages, i);
    var t := pages[i := GivenBack(pages[i], a)];
    assert forall j {:trigger t[j]} :: 0 <= j < |t| && j != i ==> t[j] == pages[j];
  }

  lemma FreedFullThreaded(o: ObjectMemory, v: Slabs, i: nat, a: nat)
    requires Threaded(o, v) && i < |v.full| && a !in FreeSum(v) && a != NULL
    ensures Threaded(o[a := Object(Head(v.full[i].free), SLAB_MAGIC)], FreedFull(v, i, a))
  {
    hide Chained, ThreadedList, Bag;
    var m := o[a := Object(Head(v.full[i].free), SLAB_MAGIC)];
    ThreadedElsewhere(o, m, v.partial);
    ThreadedElsewhere(o, m, v.empty);
    GivenThreaded(o, m, v.full, i, a);
    ThreadedCons(m, GivenBack(v.full[i], a), v.partial);
  }

  lemma FreedPartialThreaded(o: ObjectMemory, s: Shape, v: Slabs, i: nat, a: nat)
    requires s.size > 0 && Threaded(o, v) && i < |v.partial| && a !in FreeSum(v) && a != NULL
    ensures Threaded(o[a := Object(Head(v.partial[i].free), SLAB_MAGIC)], FreedPartial(s, v, i, a))
  {
    hide Chained, ThreadedList, Bag, Objects;
    var m := o[a := Object(Head(v.partial[i].free), SLAB_MAGIC)];
    ThreadedElsewhere(o, m, v.full);
    ThreadedElsewhere(o, m, v.empty);
    GivenThreaded(o, m, v.partial, i, a);
    ThreadedCons(m, GivenBack(v.partial[i], a), v.empty);
  }

  /** The writes of slab_free_obj into an object that a caller held. */
  lemma FreedThreaded(o: ObjectMemory, s: Shape, v: Slabs, full: bool, i: nat, a: nat)
    requires ShapeOk(s) && Sound(s, v) && Threaded(o, v) && a in Held(s, v)
    requires HeldFrom(s, if full then v.full else v.partial, i, a)
    ensures i < |if full then v.full else v.partial|
    ensures var m := o[a := Object(Head((if full then v.full else v.partial)[i].free), SLAB_MAGIC)];
      Threaded(m, if full then FreedFull(v, i, a) else FreedPartial(s, v, i, a))
  {
    HeldIndex(s, if full then v.full else v.partial, i, a);
    HeldNotNull(s, v, full, i, a);
    HeldIsNotFree(s, v, a);
    hide Threaded, Sound, Held, HeldFrom, FreeSum, FreedFull, FreedPartial;
    if full { FreedFullThreaded(o, v, i, a); } else { FreedPartialThreaded(o, s, v, i, a); }
  }

  /** cache_free writes into the object, and the search by address finds the slab whose list it joins. */
  lemma FreeThreads(o: ObjectMemory, s: Shape, v: Slabs, a: nat)
    requires ShapeOk(s) && Sound(s, v) && Disciplined(s, v) && Threaded(o, v) && a in Held(s, v)
    ensures var i, j := Find(s, v.full, a), Find(s, v.partial, a);
      if i < |v.full| then Threaded(o[a := Object(Head(v.full[i].free), SLAB_MAGIC)], Freed(s, v, a))
      else j < |v.partial| && Threaded(o[a := Object(Head(v.partial[j].free), SLAB_MAGIC)], Freed(s, v, a))
  {
    hide Threaded, Sound, Disciplined, Held, FreedFull, FreedPartial, Find, HeldFrom;
    var full, i := HolderOf(s, v, a);
    FindIsOwner(s, v, a, full, i);
    FreedThreaded(o, s, v, full, i, a);
  }

  // ---- cache_reap ----

  lemma DropThreaded(o: ObjectMemory, v: Slabs)
    requires Threaded(o, v) && v.empty != []
    ensures Threaded(o, DropFirst(v))
  {
    hide Chained, ThreadedList;
    ThreadedTail(o, v.empty);
  }
}
