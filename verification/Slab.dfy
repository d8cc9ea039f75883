/** One cache of the slab allocator: its three doubly linked slab lists, the free objects linked through the
    memory of the slabs, and its counters. */
module Slab {
  import opened Dyadic
  import opened ObjectChains
  import opened ObjectPages
  import opened SlabLists
  import opened SlabObjects
  import opened Wrappers

  datatype SlabStruct = SlabStruct(base: nat, inuse: int, free: nat, freelist: nat, next: nat, prev: nat)

  type Memory = map<nat, SlabStruct>

  function At(pages: seq<Page>, i: int): nat {
    if 0 <= i < |pages| then pages[i].addr else NULL
  }

  function StructOf(s: Shape, p: Page, next: nat, prev: nat): SlabStruct
    requires s.size > 0
  {
    SlabStruct(p.base, Used(s, p), |p.free|, Head(p.free), next, prev)
  }

  ghost predicate SlabAt(m: Memory, s: Shape, pages: seq<Page>, i: nat)
    requires s.size > 0 && i < |pages|
  {
    && pages[i].addr != NULL && pages[i].addr in m
    && m[pages[i].addr] == StructOf(s, pages[i], At(pages, i + 1), At(pages, i - 1))
  }

  /** A doubly linked list of slabs. */
  ghost predicate SlabList(m: Memory, s: Shape, pages: seq<Page>)
    requires s.size > 0
  {
    forall i {:trigger SlabAt(m, s, pages, i)} :: 0 <= i < |pages| ==> SlabAt(m, s, pages, i)
  }

  ghost predicate Disjoint(x: seq<Page>, y: seq<Page>) {
    forall i, j :: 0 <= i < |x| && 0 <= j < |y| ==> x[i].addr != y[j].addr
  }

  /** m differs from m0 at most at the structs of a list and at one more. */
  ghost predicate Within(m: Memory, m0: Memory, pages: seq<Page>, a: nat) {
    m0.Keys <= m.Keys && forall b :: b in m0 && b != a && NotIn(pages, b) ==> m[b] == m0[b]
  }

  lemma ListAt(m: Memory, s: Shape, pages: seq<Page>, i: nat)
    requires s.size > 0 && SlabList(m, s, pages) && i < |pages|
    ensures pages[i].addr != NULL && pages[i].addr in m
    ensures m[pages[i].addr] == StructOf(s, pages[i], At(pages, i + 1), At(pages, i - 1))
  {
    assert SlabAt(m, s, pages, i);
  }

  lemma ListElsewhere(m: Memory, m0: Memory, s: Shape, pages: seq<Page>)
    requires s.size > 0 && SlabList(m0, s, pages)
    requires forall i :: 0 <= i < |pages| && pages[i].addr in m0 ==> pages[i].addr in m && m[pages[i].addr] == m0[pages[i].addr]
    ensures SlabList(m, s, pages)
  {
    hide StructOf;
    forall i: nat | i < |pages| ensures SlabAt(m, s, pages, i) { assert SlabAt(m0, s, pages, i); }
  }

  lemma ListApart(m: Memory, m0: Memory, s: Shape, pages: seq<Page>, z: seq<Page>, a: nat)
    requires s.size > 0 && SlabList(m0, s, z) && Within(m, m0, pages, a) && Disjoint(pages, z) && NotIn(z, a)
    ensures SlabList(m, s, z)
  {
    hide StructOf, SlabList;
    ListElsewhere(m, m0, s, z);
  }

  // ---- move_slab ----

  function SetNext(m: Memory, a: nat, x: nat): Memory
    requires a != NULL ==> a in m
  {
    if a == NULL then m else m[a := m[a].(next := x)]
  }

  function SetPrev(m: Memory, a: nat, x: nat): Memory
    requires a != NULL ==> a in m
  {
    if a == NULL then m else m[a := m[a].(prev := x)]
  }

  /** The links around slab i are joined. */
  function UnlinkMem(m: Memory, pages: seq<Page>, i: nat): Memory
    requires i < |pages| && (i > 0 ==> At(pages, i - 1) in m) && (i + 1 < |pages| ==> At(pages, i + 1) in m)
  {
    SetPrev(SetNext(m, At(pages, i - 1), At(pages, i + 1)), At(pages, i + 1), At(pages, i - 1))
  }

  lemma UnlinkAt(m: Memory, s: Shape, pages: seq<Page>, i: nat, k: nat)
    requires s.size > 0 && SlabList(m, s, pages) && Distinct(pages) && i < |pages| && k < |pages|
    ensures (i > 0 ==> At(pages, i - 1) in m) && (i + 1 < |pages| ==> At(pages, i + 1) in m) && pages[k].addr in m
    ensures pages[k].addr in UnlinkMem(m, pages, i)
    ensures UnlinkMem(m, pages, i)[pages[k].addr] == m[pages[k].addr].(
              next := if k + 1 == i then At(pages, i + 1) else At(pages, k + 1),
              prev := if k == i + 1 then At(pages, i - 1) else At(pages, k - 1))
  {
    if i > 0 { ListAt(m, s, pages, i - 1); }
    if i + 1 < |pages| { ListAt(m, s, pages, i + 1); }
    ListAt(m, s, pages, k);
    hide SlabList, Used;
  }

  lemma Unlinked(m: Memory, s: Shape, pages: seq<Page>, i: nat)
    requires s.size > 0 && SlabList(m, s, pages) && Distinct(pages) && i < |pages|
    ensures (i > 0 ==> At(pages, i - 1) in m) && (i + 1 < |pages| ==> At(pages, i + 1) in m)
    ensures var m' := UnlinkMem(m, pages, i);
      && SlabList(m', s, Without(pages, i)) && Within(m', m, pages, pages[i].addr)
      && pages[i].addr in m && pages[i].addr in m' && m'[pages[i].addr] == m[pages[i].addr]
  {
    hide Used;
    UnlinkAt(m, s, pages, i, i);
    ListAt(m, s, pages, i);
    var w, m' := Without(pages, i), UnlinkMem(m, pages, i);
    forall j: nat | j < |w| ensures SlabAt(m', s, w, j) {
      var k := if j < i then j else j + 1;
      assert w[j] == pages[k];
      UnlinkAt(m, s, pages, i, k);
      ListAt(m, s, pages, k);
      assert At(w, j + 1) == if j + 1 == i then At(pages, i + 1) else At(pages, k + 1);
      assert At(w, j - 1) == if j == i then At(pages, i - 1) else At(pages, k - 1);
    }
  }

  /** The slab is linked in front of a list. */
  function PushMem(m: Memory, a: nat, head: nat): Memory
    requires a in m && (head != NULL ==> head in m)
  {
    SetPrev(m[a := m[a].(next := head, prev := NULL)], head, a)
  }

  lemma Pushed(m: Memory, s: Shape, pages: seq<Page>, q: Page)
    requires s.size > 0 && SlabList(m, s, pages) && Distinct(pages) && NotIn(pages, q.addr) && q.addr != NULL && q.addr in m
    requires m[q.addr].(next := NULL, prev := NULL) == StructOf(s, q, NULL, NULL)
    ensures At(pages, 0) != NULL ==> At(pages, 0) in m
    ensures var m' := PushMem(m, q.addr, At(pages, 0));
      SlabList(m', s, [q] + pages) && Within(m', m, pages, q.addr)
  {
    hide Used;
    if pages != [] { ListAt(m, s, pages, 0); }
    var t, m' := [q] + pages, PushMem(m, q.addr, At(pages, 0));
    forall j: nat | j < |t| ensures SlabAt(m', s, t, j) {
      assert At(t, j + 1) == At(pages, j);
      assert At(t, j - 1) == if j == 0 then NULL else if j == 1 then q.addr else At(pages, j - 2);
      if j > 0 {
        ListAt(m, s, pages, j - 1);
        assert t[j] == pages[j - 1];
      }
    }
  }

  lemma WithinChain(m: Memory, m': Memory, m'': Memory, x: seq<Page>, y: seq<Page>, a: nat, b: nat)
    requires Within(m', m, x, a) && Within(m'', m', y, a)
    requires b in m && b != a && NotIn(x, b) && NotIn(y, b)
    ensures b in m'' && m''[b] == m[b]
  {
  }

  lemma WithoutApart(x: seq<Page>, i: nat, y: seq<Page>)
    requires i < |x| && Distinct(x) && Disjoint(x, y)
    ensures Disjoint(Without(x, i), y) && NotIn(Without(x, i), x[i].addr) && NotIn(y, x[i].addr)
    ensures Disjoint(y, Without(x, i))
  {
    var w := Without(x, i);
    assert forall j :: 0 <= j < |w| ==> w[j] == x[if j < i then j else j + 1];
  }

  // ---- one slab rewritten in place ----

  lemma SlabSet(m: Memory, s: Shape, pages: seq<Page>, i: nat, q: Page)
    requires s.size > 0 && SlabList(m, s, pages) && Distinct(pages) && i < |pages| && q.addr == pages[i].addr
    ensures var m' := m[q.addr := StructOf(s, q, At(pages, i + 1), At(pages, i - 1))];
      SlabList(m', s, pages[i := q]) && Within(m', m, [], q.addr) && Distinct(pages[i := q])
  {
    hide StructOf;
    var t, m' := pages[i := q], m[q.addr := StructOf(s, q, At(pages, i + 1), At(pages, i - 1))];
    forall j: nat | j < |t| ensures SlabAt(m', s, t, j) {
      ListAt(m, s, pages, j);
      assert At(t, j + 1) == At(pages, j + 1) && At(t, j - 1) == At(pages, j - 1);
    }
  }

  lemma SetSame(pages: seq<Page>, i: nat, q: Page, z: seq<Page>)
    requires i < |pages| && q.addr == pages[i].addr && Distinct(pages)
    ensures At(pages[i := q], 0) == At(pages, 0) && Without(pages[i := q], i) == Without(pages, i)
    ensures Disjoint(pages, z) ==> Disjoint(pages[i := q], z) && NotIn(z, q.addr)
    ensures Disjoint(z, pages) ==> Disjoint(z, pages[i := q]) && NotIn(z, q.addr)
    ensures Distinct(pages[i := q])
  {
  }

  /** The three lists of a cache. */
  ghost predicate Listed(m: Memory, s: Shape, v: Slabs)
    requires s.size > 0
  {
    SlabList(m, s, v.full) && SlabList(m, s, v.partial) && SlabList(m, s, v.empty)
  }

  ghost predicate ListsApart(v: Slabs) {
    && Distinct(v.full) && Distinct(v.partial) && Distinct(v.empty)
    && Disjoint(v.full, v.partial) && Disjoint(v.full, v.empty) && Disjoint(v.partial, v.empty)
  }

  lemma SoundApart(s: Shape, v: Slabs)
    requires s.size > 0 && Sound(s, v)
    ensures ListsApart(v)
  {
    hide Bag, PageOk, BasesApart;
    ListsDistinct(v);
  }

  class SlabCache {
    const shape: Shape
    var slabs: Memory
    var objects: ObjectMemory
    var slabsFull: nat
    var slabsPartial: nat
    var slabsEmpty: nat
    var numSlabs: nat
    var numActive: nat
    var numFree: nat
    ghost var v: Slabs

    ghost predicate Kept()
      reads this
    {
      && ShapeOk(shape) && Objects(shape) >= 2
      && Sound(shape, v) && Listed(slabs, shape, v) && Threaded(objects, v)
      && slabsFull == At(v.full, 0) && slabsPartial == At(v.partial, 0) && slabsEmpty == At(v.empty, 0)
      && numSlabs == Count(v)
    }

    /** Every slab is on the list its free objects say, and the counters are the sums over the lists. */
    ghost predicate Valid()
      reads this
    {
      Kept() && Disciplined(shape, v) && numActive == ActiveCount(shape, v) && numFree == FreeCount(v)
    }

    /** cache_create, for object sizes up to 2048. */
    constructor (size: nat)
      requires 0 < size <= 2048
      ensures Valid() && shape == Shape(size, 0) && v == NONE
    {
      shape := Shape(size, 0);
      slabs, objects, slabsFull, slabsPartial, slabsEmpty := map[], map[], NULL, NULL, NULL;
      numSlabs, numActive, numFree, v := 0, 0, 0, NONE;
      new;
      TwoObjectsIff(size);
      TwoIsSome(shape);
      NoneSound(shape);
      assert FreeLists([]) == [];
    }

    /** move_slab, from list x to the front of list y. */
    method MoveSlab(from: nat, to: nat, slab: nat, ghost x: seq<Page>, ghost i: nat, ghost y: seq<Page>)
        returns (newFrom: nat, newTo: nat)
      requires shape.size > 0 && SlabList(slabs, shape, x) && SlabList(slabs, shape, y) && i < |x| && slab == x[i].addr
      requires Distinct(x) && Distinct(y) && Disjoint(x, y) && from == At(x, 0) && to == At(y, 0)
      modifies `slabs
      ensures SlabList(slabs, shape, Without(x, i)) && SlabList(slabs, shape, [x[i]] + y)
      ensures newFrom == At(Without(x, i), 0) && newTo == slab
      ensures old(slabs).Keys <= slabs.Keys
      ensures forall b :: b in old(slabs) && NotIn(x, b) && NotIn(y, b) ==> slabs[b] == old(slabs)[b]
    {
      hide SlabList, StructOf, Distinct, Within;
      newFrom := from;
      ghost var m := slabs;
      ListAt(slabs, shape, x, i);
      LinksOf(shape, x[i], At(x, i + 1), At(x, i - 1));
      Unlinked(slabs, shape, x, i);
      EdgeLinks(slabs, shape, x, i);
      WithoutHead(x, i);
      if slabs[slab].prev != NULL {
        slabs := slabs[slabs[slab].prev := slabs[slabs[slab].prev].(next := slabs[slab].next)];
      } else {
        newFrom := slabs[slab].next;
      }
      if slabs[slab].next != NULL {
        slabs := slabs[slabs[slab].next := slabs[slabs[slab].next].(prev := slabs[slab].prev)];
      }
      assert slabs == UnlinkMem(m, x, i);
      ghost var m1 := slabs;
      WithoutApart(x, i, y);
      ListApart(m1, m, shape, x, y, slab);
      Pushed(m1, shape, y, x[i]);
      ListApart(PushMem(m1, slab, to), m1, shape, y, Without(x, i), slab);
      slabs := slabs[slab := slabs[slab].(next := to)];
      slabs := slabs[slab := slabs[slab].(prev := NULL)];
      if to != NULL {
        slabs := slabs[to := slabs[to].(prev := slab)];
      }
      assert slabs == PushMem(m1, slab, to);
      newTo := slab;
      forall b | b in m && NotIn(x, b) && NotIn(y, b) ensures b in slabs && slabs[b] == m[b] {
        WithinChain(m, m1, slabs, x, y, slab, b);
      }
      WithinKeys(m, m1, slabs, x, y, slab);
    }

    // ---- cache_alloc ----

    /** slab_create: a struct, and the objects linked and marked, the last one first. */
    method SlabCreate(g: Grant) returns (slab: nat)
      requires ShapeOk(shape)
      modifies `slabs, `objects, `numFree
      ensures slab == if Refused(g) then NULL else g.slab
      ensures slab == NULL ==> slabs == old(slabs) && objects == old(objects) && numFree == old(numFree)
      ensures slab != NULL ==>
        slabs == old(slabs)[slab := StructOf(shape, NewPage(shape, slab, g.memory), NULL, NULL)]
        && numFree == old(numFree) + Objects(shape)
      ensures slab != NULL ==>
        OnlyIn(shape, g.memory, objects, old(objects)) && Linked(objects, g.memory, shape.size, Objects(shape), SLAB_MAGIC)
    {
      hide Slots, Backwards, Objects, Times, Linked, OnlyIn;
      if Refused(g) {
        return NULL;
      }
      slab := g.slab;
      slabs := slabs[slab := SlabStruct(g.memory, 0, Objects(shape), NULL, NULL, NULL)];
      ghost var o, m := objects, slabs;
      var obj, freelist := g.memory, NULL;
      StartOfPage(objects, shape, g.memory, SLAB_MAGIC);
      for i := 0 to Objects(shape)
        invariant slabs == m && numFree == old(numFree) && obj == g.memory + Times(i, shape.size)
        invariant OnlyIn(shape, g.memory, objects, o) && Linked(objects, g.memory, shape.size, i, SLAB_MAGIC)
        invariant freelist == Head(Backwards(Slots(g.memory, shape.size, i)))
      {
        SlotInPage(shape, i);
        LinkOne(objects, g.memory, shape.size, i, SLAB_MAGIC);
        WriteInside(shape, g.memory, objects, o, obj, Object(freelist, SLAB_MAGIC));
        TimesNext(i, shape.size);
        objects := objects[obj := Object(freelist, SLAB_MAGIC)];
        freelist := obj;
        obj := obj + shape.size;
      }
      BackwardsSame(Slots(g.memory, shape.size, Objects(shape)));
      SlotsBetween(g.memory, shape.size, Objects(shape));
      slabs := slabs[slab := slabs[slab].(freelist := freelist)];
      numFree := numFree + Objects(shape);
    }

    /** The first empty slab moves to the partial list. */
    method ReuseSlab(slab: nat)
      requires shape.size > 0 && Listed(slabs, shape, v) && ListsApart(v) && v.partial == [] && v.empty != []
      requires slab == slabsEmpty && slabsEmpty == At(v.empty, 0) && slabsPartial == At(v.partial, 0)
      modifies `slabs, `slabsPartial, `slabsEmpty
      ensures Listed(slabs, shape, v.(empty := v.empty[1..], partial := [v.empty[0]] + v.partial))
      ensures slabsEmpty == At(v.empty[1..], 0) && slabsPartial == slab
    {
      hide SlabList, Distinct, Disjoint;
      FirstWithout(v.empty);
      DisjointSwap(v.partial, v.empty);
      MovedApart(slabs, shape, v, v.empty, v.partial, v.full);
      ghost var m := slabs;
      slabsEmpty, slabsPartial := MoveSlab(slabsEmpty, slabsPartial, slab, v.empty, 0, v.partial);
      ListElsewhere(slabs, m, shape, v.full);
    }

    /** A new slab in front of the partial list. */
    method AddSlab(g: Grant) returns (slab: nat)
      requires ShapeOk(shape) && Sound(shape, v) && Listed(slabs, shape, v)
      requires Refused(g) || Unused(shape, v.bases, g.slab, g.memory)
      requires slabsPartial == At(v.partial, 0)
      modifies `slabs, `objects, `slabsPartial, `numSlabs, `numFree
      ensures slab == if Refused(g) then NULL else g.slab
      ensures slab == NULL ==>
        && slabs == old(slabs) && objects == old(objects) && numFree == old(numFree) && numSlabs == old(numSlabs)
        && slabsPartial == old(slabsPartial)
      ensures slab != NULL ==>
        && Listed(slabs, shape, v.(partial := [NewPage(shape, g.slab, g.memory)] + v.partial)) && slabsPartial == slab
        && numFree == old(numFree) + Objects(shape) && numSlabs == old(numSlabs) + 1
      ensures slab != NULL ==>
        OnlyIn(shape, g.memory, objects, old(objects)) && Linked(objects, g.memory, shape.size, Objects(shape), SLAB_MAGIC)
    {
      hide OnlyIn, Linked, Sound, SlabList, Objects, NewPage, StructOf;
      ghost var m0 := slabs;
      slab := SlabCreate(g);
      if slab == NULL {
        return NULL;
      }
      CreatedListed(m0, slabs, shape, v, g);
      HeadsNull(m0, shape, v);
      ghost var m := slabs;
      slabs := slabs[slab := slabs[slab].(next := slabsPartial)];
      if slabsPartial != NULL {
        slabs := slabs[slabsPartial := slabs[slabsPartial].(prev := slab)];
      }
      assert slabs == PushMem(m, slab, slabsPartial);
      slabsPartial := slab;
      numSlabs := numSlabs + 1;
    }

    /** cache_alloc brings a slab with free objects to the front of the partial list. */
    method MakeReady(g: Grant) returns (slab: nat)
      requires Valid() && (Refused(g) || Unused(shape, v.bases, g.slab, g.memory))
      modifies `slabs, `objects, `slabsPartial, `slabsEmpty, `numSlabs, `numFree, `v
      ensures Kept() && v == Ready(shape, old(v), g) && slab == slabsPartial
      ensures numFree == FreeCount(v) && numActive == ActiveCount(shape, v)
    {
      hide Sound, Disciplined, SlabList, Objects, ListsApart, NewPage, InUse, FreeCount, ActiveCount, OnlyIn, Linked, Threaded;
      ghost var o := objects;
      ReadyKeeps(shape, v, g);
      ReadyCounts(shape, v, g);
      ReadyHead(shape, v, g);
      ObjectsPositive(shape);
      SoundApart(shape, v);
      HeadsNull(slabs, shape, v);
      slab := slabsPartial;
      if slab == NULL {
        slab := slabsEmpty;
        if slab != NULL {
          ReuseSlab(slab);
        } else {
          slab := AddSlab(g);
          if slab != NULL { CreatedThreaded(o, objects, shape, v, g); }
        }
      }
      if slab == NULL || v.partial != [] || v.empty != [] { ReadyThreaded(objects, shape, v, g); }
      v := Ready(shape, v, g);
    }

    /** slab_alloc_obj on the first partial slab. */
    method PopObject(slab: nat) returns (obj: nat)
      requires shape.size > 0 && Listed(slabs, shape, v) && ListsApart(v) && Threaded(objects, v)
      requires v.partial != [] && v.partial[0].free != [] && slab == v.partial[0].addr
      modifies `slabs
      ensures obj == v.partial[0].free[0] && slab in slabs && slabs[slab].free == |v.partial[0].free| - 1
      ensures var q := v.partial[0].(free := v.partial[0].free[1..]);
        Listed(slabs, shape, v.(partial := v.partial[0 := q]))
    {
      hide SlabList, Objects, Distinct, Disjoint, Threaded;
      TakenThreaded(objects, v);
      ghost var m, p := slabs, v.partial[0];
      ghost var q := p.(free := p.free[1..]);
      ListAt(slabs, shape, v.partial, 0);
      LinksOf(shape, p, At(v.partial, 1), At(v.partial, -1));
      SlabSet(slabs, shape, v.partial, 0, q);
      SetSame(v.partial, 0, q, v.empty);
      DisjointHead(v.full, v.partial);
      obj := slabs[slab].freelist;
      if obj == NULL || objects[obj].magic != SLAB_MAGIC {
        return NULL;
      }
      slabs := slabs[slab := slabs[slab].(freelist := objects[obj].next)];
      slabs := slabs[slab := slabs[slab].(inuse := slabs[slab].inuse + 1)];
      slabs := slabs[slab := slabs[slab].(free := slabs[slab].free - 1)];
      assert slabs == m[slab := StructOf(shape, q, At(v.partial, 1), At(v.partial, -1))];
      DisjointNone(v.full);
      DisjointNone(v.empty);
      ListApart(slabs, m, shape, [], v.full, slab);
      ListApart(slabs, m, shape, [], v.empty, slab);
    }

    /** cache_alloc on the first partial slab, which moves to the full list with its last free object. */
    method TakeObject(slab: nat) returns (obj: nat)
      requires Kept() && v.partial != [] && v.partial[0].free != [] && slab == slabsPartial
      requires numFree == FreeCount(v) && numActive == ActiveCount(shape, v)
      modifies `slabs, `slabsPartial, `slabsFull, `numActive, `numFree, `v
      ensures Kept() && v == Taken(old(v)) && obj == old(v).partial[0].free[0]
      ensures numFree == FreeCount(v) && numActive == ActiveCount(shape, v)
    {
      hide Sound, SlabList, Objects, Distinct, Disjoint, InUse, FreeCount, ActiveCount, Threaded;
      TakenThreaded(objects, v);
      ghost var q := v.partial[0].(free := v.partial[0].free[1..]);
      ghost var t := v.partial[0 := q];
      TakenKeeps(shape, v);
      TakenCounts(shape, v);
      SoundApart(shape, v);
      TakenPlaces(v);
      obj := PopObject(slab);
      numActive := numActive + 1;
      numFree := numFree - 1;
      if slabs[slab].free == 0 {
        MoveFirst(slab, q, t);
      }
      v := Taken(v);
    }

    /** The first partial slab, now q, moves to the full list. */
    method MoveFirst(slab: nat, ghost q: Page, ghost t: seq<Page>)
      requires shape.size > 0 && v.partial != [] && q.addr == v.partial[0].addr == slab && t == v.partial[0 := q]
      requires ListsApart(v) && Listed(slabs, shape, v.(partial := t))
      requires slabsPartial == At(v.partial, 0) && slabsFull == At(v.full, 0)
      modifies `slabs, `slabsPartial, `slabsFull
      ensures Listed(slabs, shape, v.(partial := t[1..], full := [q] + v.full))
      ensures slabsPartial == At(t[1..], 0) && slabsFull == slab
    {
      hide SlabList, Distinct, Disjoint;
      SetSame(v.partial, 0, q, v.full);
      SetSame(v.partial, 0, q, v.empty);
      DisjointSwap(v.full, t);
      FirstWithout(t);
      MovedApart(slabs, shape, v, t, v.full, v.empty);
      ghost var m := slabs;
      slabsPartial, slabsFull := MoveSlab(slabsPartial, slabsFull, slab, t, 0, v.full);
      ListElsewhere(slabs, m, shape, v.empty);
    }

    /** cache_alloc. */
    method CacheAlloc(g: Grant) returns (obj: nat)
      requires Valid() && (Refused(g) || Unused(shape, v.bases, g.slab, g.memory))
      modifies this
      ensures Valid() && v == Allocated(shape, old(v), g) && obj == AllocatedObject(shape, old(v), g)
      ensures Held(shape, v) == Held(shape, old(v)) + Just(obj)
      ensures obj == NULL <==> old(v).partial == [] && old(v).empty == [] && Refused(g)
      ensures PartialFirst(shape, old(v), g, v, obj)
    {
      AllocIsPartialFirst(shape, v, g);
      hide PartialFirst;
      hide Sound, Disciplined, SlabList, Objects, Ready, Taken, InUse, Held, Threaded;
      AllocKeeps(shape, v, g);
      AllocHolds(shape, v, g);
      ReadyFree(shape, v, g);
      HeadsNull(slabs, shape, v);
      var slab := MakeReady(g);
      HeadsNull(slabs, shape, v);
      if slab == NULL {
        return NULL;
      }
      obj := TakeObject(slab);
    }

    // ---- cache_free ----

    /** The loop of cache_free over one list. */
    method FindSlab(first: nat, obj: nat, ghost pages: seq<Page>) returns (slab: nat, ghost i: nat)
      requires shape.size > 0 && SlabList(slabs, shape, pages) && first == At(pages, 0)
      ensures slab == At(pages, Find(shape, pages, obj)) && (slab == NULL <==> Find(shape, pages, obj) == |pages|)
      ensures i == Find(shape, pages, obj)
    {
      hide SlabList, Objects, Find;
      slab, i := first, 0;
      FindFrom(shape, pages, obj, 0);
      if pages != [] { ListAt(slabs, shape, pages, 0); }
      while slab != NULL && !(slabs[slab].base <= obj < slabs[slab].base + Span(shape))
        invariant i <= |pages| && slab == At(pages, i)
        invariant i < |pages| ==> slab in slabs && slab != NULL
        invariant Find(shape, pages, obj) == i + Find(shape, pages[i..], obj)
        decreases |pages| - i
      {
        ListAt(slabs, shape, pages, i);
        FindFrom(shape, pages, obj, i);
        slab := slabs[slab].next;
        i := i + 1;
        if i < |pages| { ListAt(slabs, shape, pages, i); }
      }
      FindFrom(shape, pages, obj, i);
      if i < |pages| { ListAt(slabs, shape, pages, i); }
    }

    /** slab_free_obj on slab i of a list. */
    method PushObject(slab: nat, obj: nat, ghost pages: seq<Page>, ghost i: nat)
      requires shape.size > 0 && SlabList(slabs, shape, pages) && Distinct(pages)
      requires i < |pages| && slab == pages[i].addr
      modifies `slabs, `objects
      ensures objects == old(objects)[obj := Object(Head(pages[i].free), SLAB_MAGIC)]
      ensures SlabList(slabs, shape, pages[i := GivenBack(pages[i], obj)])
      ensures Within(slabs, old(slabs), [], slab) && slab in slabs && slabs[slab].free == |pages[i].free| + 1
    {
      hide SlabList, Objects, Distinct;
      ghost var m, q := slabs, GivenBack(pages[i], obj);
      ListAt(slabs, shape, pages, i);
      LinksOf(shape, pages[i], At(pages, i + 1), At(pages, i - 1));
      SlabSet(slabs, shape, pages, i, q);
      objects := objects[obj := Object(slabs[slab].freelist, SLAB_MAGIC)];
      slabs := slabs[slab := slabs[slab].(freelist := obj)];
      slabs := slabs[slab := slabs[slab].(inuse := slabs[slab].inuse - 1)];
      slabs := slabs[slab := slabs[slab].(free := slabs[slab].free + 1)];
      assert slabs == m[slab := StructOf(shape, q, At(pages, i + 1), At(pages, i - 1))];
    }

    /** cache_free to slab i of the full list, which moves to the partial list. */
    method FreeToFull(slab: nat, obj: nat, ghost i: nat)
      requires shape.size > 0 && Listed(slabs, shape, v) && ListsApart(v) && i < |v.full| && slab == v.full[i].addr
      requires slabsFull == At(v.full, 0) && slabsPartial == At(v.partial, 0)
      modifies `slabs, `objects, `slabsFull, `slabsPartial
      ensures objects == old(objects)[obj := Object(Head(v.full[i].free), SLAB_MAGIC)]
      ensures Listed(slabs, shape, FreedFull(v, i, obj))
      ensures slabsFull == At(FreedFull(v, i, obj).full, 0) && slabsPartial == At(FreedFull(v, i, obj).partial, 0)
    {
      hide SlabList, Objects, Distinct, Disjoint, Without;
      ghost var m, q := slabs, GivenBack(v.full[i], obj);
      ghost var t := v.full[i := q];
      SetSame(v.full, i, q, v.partial);
      SetSame(v.full, i, q, v.empty);
      PushObject(slab, obj, v.full, i);
      DisjointNone(v.partial);
      DisjointNone(v.empty);
      ListApart(slabs, m, shape, [], v.partial, slab);
      ListApart(slabs, m, shape, [], v.empty, slab);
      MovedApart(slabs, shape, v, t, v.partial, v.empty);
      ghost var m1 := slabs;
      slabsFull, slabsPartial := MoveSlab(slabsFull, slabsPartial, slab, t, i, v.partial);
      ListElsewhere(slabs, m1, shape, v.empty);
    }

    /** cache_free to slab i of the partial list, which moves to the empty list with its last object. */
    method FreeToPartial(slab: nat, obj: nat, ghost i: nat)
      requires shape.size > 0 && Listed(slabs, shape, v) && ListsApart(v) && i < |v.partial| && slab == v.partial[i].addr
      requires slabsPartial == At(v.partial, 0) && slabsEmpty == At(v.empty, 0)
      modifies `slabs, `objects, `slabsPartial, `slabsEmpty
      ensures objects == old(objects)[obj := Object(Head(v.partial[i].free), SLAB_MAGIC)]
      ensures var w := FreedPartial(shape, v, i, obj);
        Listed(slabs, shape, w) && slabsPartial == At(w.partial, 0) && slabsEmpty == At(w.empty, 0)
    {
      hide SlabList, Objects, Distinct, Disjoint, Without;
      ghost var m, q := slabs, GivenBack(v.partial[i], obj);
      ghost var t := v.partial[i := q];
      SetSame(v.partial, i, q, v.full);
      SetSame(v.partial, i, q, v.empty);
      PushObject(slab, obj, v.partial, i);
      DisjointNone(v.full);
      DisjointNone(v.empty);
      ListApart(slabs, m, shape, [], v.full, slab);
      ListApart(slabs, m, shape, [], v.empty, slab);
      if slabs[slab].free == Objects(shape) {
        MovedApart(slabs, shape, v, t, v.empty, v.full);
        ghost var m1 := slabs;
        slabsPartial, slabsEmpty := MoveSlab(slabsPartial, slabsEmpty, slab, t, i, v.empty);
        ListElsewhere(slabs, m1, shape, v.full);
      }
    }

    /** cache_free, of an object that a caller holds or of an address in no slab. */
    method CacheFree(obj: nat)
      requires Valid()
      requires || obj == NULL || obj in Held(shape, v)
               || (Find(shape, v.full, obj) == |v.full| && Find(shape, v.partial, obj) == |v.partial|)
      modifies this
      ensures Valid() && v == if obj == NULL then old(v) else Freed(shape, old(v), obj)
      ensures obj != NULL && obj in Held(shape, old(v)) ==> Held(shape, v) == Held(shape, old(v)) - multiset{obj}
    {
      hide Sound, NoneFree, SomeFree, AllFree, SlabList, Objects, InUse, Held, Find, FreedFull, FreedPartial, ActiveCount, FreeCount, ListsApart,
        Threaded;
      if obj == NULL {
        return;
      }
      SoundApart(shape, v);
      if obj in Held(shape, v) {
        FreeKeeps(shape, v, obj);
        FreeHolds(shape, v, obj);
        FreeThreads(objects, shape, v, obj);
        ActivePositive(shape, v, obj);
      }
      ghost var i: nat, j: nat;
      var slab;
      slab, i := FindSlab(slabsFull, obj, v.full);
      if slab != NULL {
        FreedCounts(shape, v, true, i, obj);
        FullHasNone(v, i);
        FreedFullHeads(v, i, obj);
        FreeOf(slabs, shape, v.full, i);
      } else {
        slab, j := FindSlab(slabsPartial, obj, v.partial);
        if slab == NULL {
          return;
        }
        FreedCounts(shape, v, false, j, obj);
        FreedPartialHeads(shape, v, j, obj);
        PartialHasSome(shape, v, j);
        FreeOf(slabs, shape, v.partial, j);
      }
      FreedIs(shape, v, obj);
      if slabs[slab].free == 0 {
        FreeToFull(slab, obj, i);
      } else {
        FreeToPartial(slab, obj, j);
      }
      numActive := numActive - 1;
      numFree := numFree + 1;
      v := Freed(shape, v, obj);
    }

    // ---- cache_reap ----

    /** The first empty slab is taken off its list and destroyed. */
    method DestroyFirst()
      requires Valid() && v.empty != []
      modifies `slabs, `slabsEmpty, `numSlabs, `numFree, `v
      ensures Valid() && v == DropFirst(old(v))
    {
      hide Sound, Disciplined, SlabList, Objects, InUse, Held, FreeSum, ActiveCount, ListsApart, Threaded;
      HeadsNull(slabs, shape, v);
      SoundApart(shape, v);
      DropKeeps(shape, v);
      DropHolds(shape, v);
      DropListed(slabs, shape, v);
      DropThreaded(objects, v);
      var slab := slabsEmpty;
      slabsEmpty := slabs[slab].next;
      if slabsEmpty != NULL {
        slabs := slabs[slabsEmpty := slabs[slabsEmpty].(prev := NULL)];
      }
      numFree := numFree - slabs[slab].free;
      numSlabs := numSlabs - 1;
      v := DropFirst(v);
    }

    /** cache_reap on one cache. */
    method CacheReap()
      requires Valid()
      modifies this
      ensures Valid() && v == Reaped(old(v)) && Held(shape, v) == Held(shape, old(v))
      ensures v.full == old(v).full && v.partial == old(v).partial
      ensures |v.empty| == if old(v).empty != [] && |v.full| + |v.partial| == 0 then 1 else 0
      ensures |v.empty| <= |old(v).empty| && v.empty == old(v).empty[|old(v).empty| - |v.empty|..]
    {
      ReapedAre(v);
      hide Sound, Disciplined, SlabList, Objects, InUse, Held, FreeSum, ActiveCount, DropFirst, Threaded;
      ReapHolds(shape, v);
      ghost var v0 := v;
      HeadsNull(slabs, shape, v);
      while slabsEmpty != NULL && numSlabs > 1
        invariant Valid() && Reaped(v) == Reaped(v0) && (slabsEmpty == NULL <==> v.empty == [])
        decreases |v.empty|
      {
        DropShorter(v);
        DestroyFirst();
        HeadsNull(slabs, shape, v);
      }
    }
  }

  lemma FreeOf(m: Memory, s: Shape, pages: seq<Page>, i: nat)
    requires s.size > 0 && SlabList(m, s, pages) && i < |pages|
    ensures pages[i].addr in m && m[pages[i].addr].free == |pages[i].free|
  {
    ListAt(m, s, pages, i);
    LinksOf(s, pages[i], At(pages, i + 1), At(pages, i - 1));
  }

  lemma DropShorter(v: Slabs)
    requires v.empty != []
    ensures |DropFirst(v).empty| == |v.empty| - 1
  {
  }

  lemma ActivePositive(s: Shape, v: Slabs, a: nat)
    requires ShapeOk(s) && Sound(s, v) && a in Held(s, v)
    ensures ActiveCount(s, v) > 0
  {
    ActiveIsHeld(s, v);
    hide Held, ActiveCount, Sound;
    assert Held(s, v) == (Held(s, v) - multiset{a}) + multiset{a};
  }

  lemma FindFrom(s: Shape, pages: seq<Page>, a: nat, i: nat)
    requires i <= |pages|
    ensures i == 0 ==> pages[i..] == pages
    ensures i == |pages| ==> Find(s, pages[i..], a) == 0
    ensures i < |pages| ==> Find(s, pages[i..], a) == if InRegion(s, pages[i].base, a) then 0 else 1 + Find(s, pages[i + 1..], a)
  {
    if i < |pages| { assert pages[i..][1..] == pages[i + 1..]; }
  }

  lemma FullHasNone(v: Slabs, i: nat)
    requires NoneFree(v.full) && i < |v.full|
    ensures v.full[i].free == []
  {
  }

  lemma PartialHasSome(s: Shape, v: Slabs, i: nat)
    requires s.size > 0 && SomeFree(s, v.partial) && i < |v.partial|
    ensures v.partial[i].free != []
  {
  }

  lemma FreedFullHeads(v: Slabs, i: nat, a: nat)
    requires i < |v.full|
    ensures var w := FreedFull(v, i, a); At(w.empty, 0) == At(v.empty, 0)
  {
  }

  lemma FreedPartialHeads(s: Shape, v: Slabs, i: nat, a: nat)
    requires s.size > 0 && i < |v.partial|
    ensures var w := FreedPartial(s, v, i, a); At(w.full, 0) == At(v.full, 0)
  {
  }

  lemma FreedIs(s: Shape, v: Slabs, a: nat)
    requires s.size > 0
    ensures var i, j := Find(s, v.full, a), Find(s, v.partial, a);
      Freed(s, v, a) == if i < |v.full| then FreedFull(v, i, a) else if j < |v.partial| then FreedPartial(s, v, j, a) else v
  {
  }

  lemma DropListed(m: Memory, s: Shape, v: Slabs)
    requires s.size > 0 && Listed(m, s, v) && ListsApart(v) && v.empty != []
    ensures var next, a := At(v.empty, 1), v.empty[0].addr;
      && a in m && m[a].next == next && m[a].free == |v.empty[0].free| && (next != NULL ==> next in m) && next != a
      && Listed(SetPrev(m, next, NULL), s, DropFirst(v))
  {
    hide SlabList, Distinct, Disjoint, StructOf;
    var p := v.empty[0];
    ListAt(m, s, v.empty, 0);
    LinksOf(s, p, At(v.empty, 1), At(v.empty, -1));
    EdgeLinks(m, s, v.empty, 0);
    Unlinked(m, s, v.empty, 0);
    FirstWithout(v.empty);
    var m' := UnlinkMem(m, v.empty, 0);
    assert m' == SetPrev(m, At(v.empty, 1), NULL);
    DisjointSwap(v.full, v.empty);
    DisjointSwap(v.partial, v.empty);
    DisjointFirst(v.empty, v.full);
    DisjointFirst(v.empty, v.partial);
    ListApart(m', m, s, v.empty, v.full, p.addr);
    ListApart(m', m, s, v.empty, v.partial, p.addr);
  }

  lemma DisjointFirst(x: seq<Page>, y: seq<Page>)
    requires Disjoint(x, y) && x != []
    ensures NotIn(y, x[0].addr)
  {
  }

  lemma HeadsNull(m: Memory, s: Shape, v: Slabs)
    requires s.size > 0 && Listed(m, s, v)
    ensures At(v.full, 0) == NULL <==> v.full == []
    ensures At(v.partial, 0) == NULL <==> v.partial == []
    ensures At(v.empty, 0) == NULL <==> v.empty == []
  {
    if v.full != [] { ListAt(m, s, v.full, 0); }
    if v.partial != [] { ListAt(m, s, v.partial, 0); }
    if v.empty != [] { ListAt(m, s, v.empty, 0); }
  }

  lemma FirstWithout(pages: seq<Page>)
    requires pages != []
    ensures Without(pages, 0) == pages[1..]
  {
  }

  lemma DisjointSwap(x: seq<Page>, y: seq<Page>)
    requires Disjoint(x, y)
    ensures Disjoint(y, x)
  {
  }

  /** A third list has none of the structs that a move between two lists touches. */
  lemma MovedApart(m: Memory, s: Shape, v: Slabs, x: seq<Page>, y: seq<Page>, z: seq<Page>)
    requires s.size > 0 && SlabList(m, s, z)
    requires (Disjoint(x, z) || Disjoint(z, x)) && (Disjoint(y, z) || Disjoint(z, y))
    ensures forall i :: 0 <= i < |z| ==> NotIn(x, z[i].addr) && NotIn(y, z[i].addr) && z[i].addr in m
  {
    forall i | 0 <= i < |z| ensures z[i].addr in m { ListAt(m, s, z, i); }
  }

  lemma ReadyFree(s: Shape, v: Slabs, g: Grant)
    requires ShapeOk(s) && Sound(s, v) && Disciplined(s, v)
    requires Refused(g) || Unused(s, v.bases, g.slab, g.memory)
    ensures Ready(s, v, g).partial != [] ==> Ready(s, v, g).partial[0].free != []
    ensures Ready(s, v, g).partial == [] ==> Ready(s, v, g) == v
  {
    ReadyKeeps(s, v, g);
  }

  /** A new slab is not on any list yet. */
  lemma CreatedListed(m: Memory, m': Memory, s: Shape, v: Slabs, g: Grant)
    requires s.size > 0 && Sound(s, v) && Listed(m, s, v) && !Refused(g)
    requires Unused(s, v.bases, g.slab, g.memory)
    requires m' == m[g.slab := StructOf(s, NewPage(s, g.slab, g.memory), NULL, NULL)]
    ensures At(v.partial, 0) != NULL ==> At(v.partial, 0) in m'
    ensures m'[g.slab].prev == NULL && At(v.partial, 0) != g.slab
    ensures Listed(PushMem(m', g.slab, At(v.partial, 0)), s, v.(partial := [NewPage(s, g.slab, g.memory)] + v.partial))
  {
    hide PageSlots, Bag, NewPage, SlabList, PageOk, BasesApart;
    var p := NewPage(s, g.slab, g.memory);
    NewPageAt(s, g.slab, g.memory);
    SoundApart(s, v);
    AddrsKnown(s, v.bases, v.full, g.slab);
    AddrsKnown(s, v.bases, v.partial, g.slab);
    AddrsKnown(s, v.bases, v.empty, g.slab);
    NotInBag(v.full, g.slab);
    NotInBag(v.partial, g.slab);
    NotInBag(v.empty, g.slab);
    ListElsewhere(m', m, s, v.full);
    ListElsewhere(m', m, s, v.partial);
    ListElsewhere(m', m, s, v.empty);
    Pushed(m', s, v.partial, p);
    var m'' := PushMem(m', g.slab, At(v.partial, 0));
    DisjointSwap(v.full, v.partial);
    ListApart(m'', m', s, v.partial, v.full, g.slab);
    ListApart(m'', m', s, v.partial, v.empty, g.slab);
  }

  lemma NewPageAt(s: Shape, addr: nat, base: nat)
    requires s.size > 0
    ensures NewPage(s, addr, base).addr == addr && NewPage(s, addr, base).base == base
  {
  }

  lemma TakenCounts(s: Shape, v: Slabs)
    requires s.size > 0 && v.partial != [] && v.partial[0].free != []
    ensures FreeCount(Taken(v)) == FreeCount(v) - 1 && ActiveCount(s, Taken(v)) == ActiveCount(s, v) + 1
  {
    hide Taken, FreeSum, ActiveCount;
    TakenHolds(s, v);
    TakenActive(s, v);
  }

  lemma DisjointHead(x: seq<Page>, y: seq<Page>)
    requires Disjoint(x, y) && y != []
    ensures NotIn(x, y[0].addr)
  {
  }

  lemma DisjointNone(x: seq<Page>)
    ensures Disjoint([], x)
  {
  }

  lemma ReadyHead(s: Shape, v: Slabs, g: Grant)
    requires s.size > 0
    ensures var w := Ready(s, v, g);
      && At(w.full, 0) == At(v.full, 0)
      && (v.partial == [] && v.empty != [] ==>
            w == v.(empty := v.empty[1..], partial := [v.empty[0]] + v.partial) && At(w.partial, 0) == At(v.empty, 0))
      && (v.partial == [] && v.empty == [] && !Refused(g) ==>
            && w.partial == [NewPage(s, g.slab, g.memory)] + v.partial && w.full == v.full && w.empty == v.empty
            && At(w.partial, 0) == g.slab)
  {
  }

  lemma TakenPlaces(v: Slabs)
    requires v.partial != [] && v.partial[0].free != []
    ensures var q := v.partial[0].(free := v.partial[0].free[1..]);
      && v.partial[0 := q] == [q] + v.partial[1..] && v.partial[0 := q][1..] == v.partial[1..]
      && Count(Taken(v)) == Count(v)
  {
  }

  lemma LinksOf(s: Shape, p: Page, next: nat, prev: nat)
    requires s.size > 0
    ensures StructOf(s, p, next, prev).next == next && StructOf(s, p, next, prev).prev == prev
    ensures StructOf(s, p, next, prev).(next := NULL, prev := NULL) == StructOf(s, p, NULL, NULL)
    ensures StructOf(s, p, next, prev).base == p.base && StructOf(s, p, next, prev).free == |p.free|
    ensures StructOf(s, p, next, prev).freelist == Head(p.free) && StructOf(s, p, next, prev).inuse == Used(s, p)
  {
  }

  /** The neighbours of slab i are other structs. */
  lemma EdgeLinks(m: Memory, s: Shape, pages: seq<Page>, i: nat)
    requires s.size > 0 && SlabList(m, s, pages) && Distinct(pages) && i < |pages|
    ensures At(pages, i - 1) != pages[i].addr && At(pages, i + 1) != pages[i].addr
    ensures At(pages, i - 1) == NULL <==> i == 0
    ensures At(pages, i + 1) == NULL <==> i == |pages| - 1
  {
    ListAt(m, s, pages, i);
    if i > 0 { ListAt(m, s, pages, i - 1); }
    if i + 1 < |pages| { ListAt(m, s, pages, i + 1); }
  }

  lemma WithoutHead(pages: seq<Page>, i: nat)
    requires i < |pages|
    ensures At(Without(pages, i), 0) == if i == 0 then At(pages, 1) else At(pages, 0)
  {
  }

  lemma WithinKeys(m: Memory, m': Memory, m'': Memory, x: seq<Page>, y: seq<Page>, a: nat)
    requires Within(m', m, x, a) && Within(m'', m', y, a)
    ensures m.Keys <= m''.Keys
  {
  }
}
