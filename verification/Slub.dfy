/** One cache of the SLUB allocator: page lists, per-CPU batches and lists, counters. The page allocator
    below is a supply of grants, one per request; a grant with a zero address is a request it could not
    meet. */
module Slub {
  import opened Dyadic
  import opened ObjectChains
  import opened ObjectPages
  import opened SlubMoves
  import opened SlubMemory
  import opened Wrappers

  const MIN_OBJECTS: nat := 16
  const MAX_ORDER: nat := 3

  /** Memory for the objects of a page and for its struct. */
  datatype Grant = Grant(memory: nat, page: nat)

  predicate Fails(supply: seq<Grant>, k: nat) {
    k >= |supply| || supply[k].memory == NULL || supply[k].page == NULL
  }

  /** No grant overlaps a live page or another grant. */
  ghost predicate Supplied(s: Shape, bases: Bases, supply: seq<Grant>) {
    && (forall i: nat :: i < |supply| && !Fails(supply, i) ==> Unused(s, bases, supply[i].page, supply[i].memory))
    && (forall i: nat, j: nat :: i < j < |supply| && !Fails(supply, i) && !Fails(supply, j) ==>
          supply[i].page != supply[j].page && RegionsApart(s, supply[i].memory, supply[j].memory))
  }

  function Rest(supply: seq<Grant>): seq<Grant> {
    if supply == [] then [] else supply[1..]
  }

  lemma RestSupplied(s: Shape, bases: Bases, supply: seq<Grant>)
    requires Supplied(s, bases, supply)
    ensures Supplied(s, bases, Rest(supply))
    ensures !Fails(supply, 0) ==> Supplied(s, bases[supply[0].page := supply[0].memory], Rest(supply))
    ensures forall k: nat :: Fails(Rest(supply), k) <==> Fails(supply, k + 1)
  {
    hide RegionsApart;
    var rest := Rest(supply);
    assert forall i: nat :: i < |rest| ==> rest[i] == supply[i + 1];
    assert forall k: nat :: Fails(rest, k) <==> Fails(supply, k + 1);
    if !Fails(supply, 0) {
      forall i: nat | i < |rest| && !Fails(rest, i)
        ensures Unused(s, bases[supply[0].page := supply[0].memory], rest[i].page, rest[i].memory)
      {
        assert !Fails(supply, i + 1);
        Symmetric(s, supply[0].memory, rest[i].memory);
      }
    }
  }

  lemma Symmetric(s: Shape, x: nat, y: nat)
    ensures RegionsApart(s, x, y) <==> RegionsApart(s, y, x)
  {
  }

  /** A CPU number out of range counts as CPU 0. */
  function Cpu(cpu: nat): (c: nat)
    ensures c < MAX_CPUS
  {
    if cpu >= MAX_CPUS then 0 else cpu
  }

  // ---- calculate_order ----

  /** The smallest order that holds 16 objects, or 3. */
  method CalculateOrder(size: nat) returns (order: nat)
    requires size > 0
    ensures order <= MAX_ORDER
    ensures Objects(Shape(size, order)) >= MIN_OBJECTS || order == MAX_ORDER
    ensures forall o: nat :: o < order ==> Objects(Shape(size, o)) < MIN_OBJECTS
    ensures order < 3 ==> 16 * size <= 4096 * Pow2(order)
    ensures forall o: nat :: o < order ==> 16 * size > 4096 * Pow2(o)
  {
    SixteenFit(size);
    Pow2Step(0);
    if PAGE_SIZE / size >= MIN_OBJECTS {
      return 0;
    }
    order := 1;
    assert Objects(Shape(size, 0)) < MIN_OBJECTS;
    while order <= MAX_ORDER
      invariant 1 <= order <= MAX_ORDER + 1
      invariant forall o: nat :: o < order ==> Objects(Shape(size, o)) < MIN_OBJECTS
    {
      if Objects(Shape(size, order)) >= MIN_OBJECTS {
        return;
      }
      order := order + 1;
    }
    return MAX_ORDER;
  }

  lemma SixteenFit(size: nat)
    requires size > 0
    ensures forall o: nat :: Objects(Shape(size, o)) >= 16 <==> 16 * size <= 4096 * Pow2(o)
  {
    hide Pow2;
    forall o: nat ensures Objects(Shape(size, o)) >= 16 <==> 16 * size <= 4096 * Pow2(o) {
      FitIff(4096 * Pow2(o), size, 16);
    }
  }

  lemma FitIff(n: nat, d: nat, k: nat)
    requires d > 0
    ensures n / d >= k <==> k * d <= n
  {
    var q := Quotient(n, d);
    assert n == q * d + n % d && (q + 1) * d == q * d + d;
    if k <= q { MulMonotone(k, q, d); } else { MulMonotone(q + 1, k, d); }
  }

  /** With the order that calculate_order picks, a page has room for an object exactly for sizes to 32768. */
  lemma RoomForOneIff(size: nat, order: nat)
    requires size > 0 && order <= MAX_ORDER
    requires Objects(Shape(size, order)) >= MIN_OBJECTS || order == MAX_ORDER
    ensures Objects(Shape(size, order)) > 0 <==> size <= 32768
  {
    Pow2Step(0);
    Pow2Step(1);
    Pow2Step(2);
    assert Pow2(order) <= 8;
    assert Pow2(MAX_ORDER) == 8;
    var span := Span(Shape(size, order));
    assert span <= 32768;
    if size > span { DivUnique(span, size, 0, span); }
    if size <= span { assert span / size >= 1 by { AtLeastOne(span, size); } }
  }

  lemma AtLeastOne(n: nat, d: nat)
    requires 0 < d <= n
    ensures n / d >= 1
  {
  }

  class SlubCache {
    const shape: Shape
    const percpu: bool
    var mem: Memory
    var pmem: PageMemory
    var partialPages: nat
    var fullPages: nat
    var totalPages: nat
    var totalObjects: nat
    var activeObjects: nat
    var allocations: nat
    var frees: nat
    const batchObjects: array2<nat>
    const batchCount: array<nat>
    const freelists: array<nat>
    ghost var v: Pools

    /** The arrays of the CPU caches hold the batches and the heads of the lists. */
    ghost predicate CpusOk()
      reads this, batchObjects, batchCount, freelists
    {
      && batchObjects.Length0 == MAX_CPUS && batchObjects.Length1 == BATCH_SIZE
      && batchCount.Length == MAX_CPUS && freelists.Length == MAX_CPUS && batchCount != freelists
      && BatchesOk(v.batches) && |v.lists| == MAX_CPUS
      && (forall c :: 0 <= c < MAX_CPUS ==> batchCount[c] == |v.batches[c]| && freelists[c] == Head(v.lists[c]))
      && (forall c, j :: 0 <= c < MAX_CPUS && 0 <= j < |v.batches[c]| ==> batchObjects[c, j] == v.batches[c][j])
    }

    ghost predicate Kept()
      reads this
    {
      && ShapeOk(shape) && Sound(shape, v) && Stored(mem, v) && Listed(pmem, shape, v)
      && partialPages == PageAddr(v.partial, 0) && fullPages == PageAddr(v.full, 0)
      && totalPages == |v.partial| + |v.full| && totalObjects == Times(Objects(shape), totalPages)
    }

    ghost function Active(): int
      reads this
      requires shape.size > 0
    {
      InUse(shape, v.partial) + InUse(shape, v.full)
    }

    /** Objects are conserved, and the counters count them. */
    ghost predicate Valid()
      reads this, batchObjects, batchCount, freelists
    {
      && Kept() && CpusOk()
      && activeObjects == Active()
      && allocations == frees + |v.out|
      && (!percpu ==> forall c :: 0 <= c < MAX_CPUS ==> v.batches[c] == [] && v.lists[c] == [])
      && Lean(shape, v)
    }

    /** cache_create. */
    constructor (size: nat, order: nat, percpu: bool)
      requires ShapeOk(Shape(size, order))
      ensures Valid() && shape == Shape(size, order) && this.percpu == percpu && v.out == multiset{} && totalPages == 0
      ensures fresh(batchObjects) && fresh(batchCount) && fresh(freelists)
    {
      shape, this.percpu := Shape(size, order), percpu;
      mem, pmem, partialPages, fullPages := map[], map[], NULL, NULL;
      totalPages, totalObjects, activeObjects, allocations, frees := 0, 0, 0, 0, 0;
      batchObjects := new nat[MAX_CPUS, BATCH_SIZE]((i, j) => NULL);
      batchCount := new nat[MAX_CPUS](i => 0);
      freelists := new nat[MAX_CPUS](i => NULL);
      v := Pools(map[], [], [], seq(MAX_CPUS, i => []), seq(MAX_CPUS, i => []), multiset{});
      new;
      EmptyBag(v.batches);
      EmptyBag(v.lists);
      assert FreeLists([]) == [] && SlotLists(shape, []) == [] && AddrLists([]) == [];
      EmptyStored(mem, v);
    }

    // ---- page lists ----

    /** remove_page_from_list, from the list that starts at head. */
    method RemovePage(head: nat, page: nat, ghost pages: seq<Page>, ghost i: nat) returns (newHead: nat)
      requires shape.size > 0 && PageList(pmem, shape, pages) && Distinct(pages)
      requires i < |pages| && page == pages[i].addr && head == PageAddr(pages, 0)
      modifies `pmem
      ensures i > 0 ==> pages[i - 1].addr in old(pmem)
      ensures pmem == Unlinked(old(pmem), pages, i)
      ensures newHead == PageAddr(Without(pages, i), 0)
    {
      hide StructOf, PageList;
      newHead := head;
      if head == page {
        assert i == 0;
        ListHead(pmem, shape, pages, 0);
        NextOf(shape, pages[0], PageAddr(pages, 1));
        return pmem[page].next;
      }
      var current := head;
      ghost var n: nat := 0;
      ghost var pm := pmem;
      ListHead(pmem, shape, pages, 0);
      NextOf(shape, pages[0], PageAddr(pages, 1));
      while current != NULL && pmem[current].next != page
        invariant pmem == pm && n < i && current == pages[n].addr && current != NULL && current in pmem
        invariant pmem[current].next == PageAddr(pages, n + 1)
        decreases i - n
      {
        current := pmem[current].next;
        n := n + 1;
        ListHead(pmem, shape, pages, n);
        NextOf(shape, pages[n], PageAddr(pages, n + 1));
      }
      assert n == i - 1;
      if current != NULL {
        ListHead(pmem, shape, pages, i);
        NextOf(shape, pages[i], PageAddr(pages, i + 1));
        pmem := pmem[current := pmem[current].(next := pmem[page].next)];
      }
    }

    /** The loop of cache_free over one page list. */
    method FindPage(head: nat, obj: nat, ghost pages: seq<Page>) returns (page: nat, ghost i: nat)
      requires shape.size > 0 && PageList(pmem, shape, pages) && head == PageAddr(pages, 0)
      ensures page == NULL ==> forall j :: 0 <= j < |pages| ==> !InRegion(shape, pages[j].base, obj)
      ensures page != NULL ==> i < |pages| && page == pages[i].addr && page in pmem && InRegion(shape, pages[i].base, obj)
    {
      hide PageList, Objects;
      page, i := head, 0;
      if page != NULL { ListHead(pmem, shape, pages, 0); }
      while page != NULL && !(pmem[page].base <= obj < pmem[page].base + Span(shape))
        invariant i <= |pages| && page == PageAddr(pages, i)
        invariant page != NULL ==> page in pmem && i < |pages| && pmem[page].base == pages[i].base
        invariant forall j :: 0 <= j < i ==> !InRegion(shape, pages[j].base, obj)
        decreases |pages| - i
      {
        ListHead(pmem, shape, pages, i);
        page := pmem[page].next;
        i := i + 1;
        if i < |pages| { ListHead(pmem, shape, pages, i); }
      }
      if page == NULL && i < |pages| { ListHead(pmem, shape, pages, i); }
    }

    /** alloc_from_page on the first partial page, and its move to the full list when that was its last
        free object. */
    method TakeObject(page: nat) returns (obj: nat)
      requires Kept() && v.partial != [] && page == partialPages
      modifies `mem, `pmem, `partialPages, `fullPages, `v
      ensures old(v).partial[0].free != [] && Kept()
      ensures v == Popped(old(v)) && obj == old(v).partial[0].free[0] && obj != NULL
      ensures Active() == old(Active()) + 1
    {
      hide Sound, Stored, PageList, InUse, Objects, Popped;
      PoppedSound(shape, v);
      PopStored(shape, v, mem);
      PopListed(pmem, shape, v);
      ListsDistinct(shape, v);
      ListHead(pmem, shape, v.partial, 0);
      ghost var p, pm, m := v.partial[0], pmem, mem;
      ghost var q := p.(free := p.free[1..]);
      obj := pmem[page].freelist;
      pmem := pmem[page := pmem[page].(freelist := mem[obj].next)];
      pmem := pmem[page := pmem[page].(inuse := pmem[page].inuse + 1)];
      mem := mem[obj := mem[obj].(magic := SLUB_MAGIC)];
      mem := mem[obj := mem[obj].(next := NULL)];
      assert mem == m[obj := Object(NULL, SLUB_MAGIC)];
      assert pmem == pm[page := StructOf(shape, q, PageAddr(v.partial, 1))];
      assert pmem[page].inuse == pmem[page].objects <==> q.free == [];
      PoppedPlaces(v);
      if pmem[page].inuse == pmem[page].objects {
        ListSet(pm, shape, v.partial, 0, q);
        SetDistinct(v.partial, 0, q);
        partialPages := RemovePage(partialPages, page, v.partial[0 := q], 0);
        pmem := pmem[page := pmem[page].(next := fullPages)];
        fullPages := page;
      }
      assert pmem == PopStructs(pm, shape, v);
      v := Popped(v);
    }

    /** init_page_objects: links the objects of a new page, the last one first. */
    method InitPageObjects(base: nat, objects: nat) returns (freelist: nat)
      requires ShapeOk(shape) && base != NULL && objects == Objects(shape)
      modifies `mem
      ensures OnlyIn(shape, base, mem, old(mem)) && Linked(mem, base, shape.size, objects, 0)
      ensures freelist == Head(Backwards(Slots(base, shape.size, objects)))
    {
      hide Linked, Slots, Backwards, Objects, OnlyIn, Times;
      ghost var m := mem;
      var obj, prev := base, NULL;
      StartOfPage(mem, shape, base, 0);
      for i := 0 to objects
        invariant obj == base + Times(i, shape.size)
        invariant OnlyIn(shape, base, mem, m) && Linked(mem, base, shape.size, i, 0)
        invariant prev == Head(Backwards(Slots(base, shape.size, i)))
      {
        SlotInPage(shape, i);
        LinkOne(mem, base, shape.size, i, 0);
        WriteInside(shape, base, mem, m, obj, Object(prev, 0));
        mem := mem[obj := Object(prev, 0)];
        prev := obj;
        obj := obj + shape.size;
        assert Times(i + 1, shape.size) == Times(i, shape.size) + shape.size by { TimesNext(i, shape.size); }
      }
      freelist := prev;
    }

    /** alloc_slub_page. */
    method AllocSlubPage(supply: seq<Grant>) returns (page: nat, rest: seq<Grant>)
      requires Kept() && Supplied(shape, v.bases, supply)
      modifies `mem, `pmem, `partialPages, `totalPages, `totalObjects, `v
      ensures Kept() && rest == Rest(supply) && Supplied(shape, v.bases, rest)
      ensures page == NULL <==> Fails(supply, 0)
      ensures page == NULL ==> v == old(v)
      ensures page != NULL ==> v == Added(shape, old(v), supply[0].page, supply[0].memory) && page == partialPages
      ensures Active() == old(Active()) && (page == NULL ==> totalPages == old(totalPages))
    {
      hide Sound, Stored, PageList, InUse, Objects, Linked, Backwards, Slots, OnlyIn, BasesApart, NewPage;
      rest := Rest(supply);
      RestSupplied(shape, v.bases, supply);
      if Fails(supply, 0) {
        return NULL, rest;
      }
      var base := supply[0].memory;
      page := supply[0].page;
      ghost var m, pm, p := mem, pmem, NewPage(shape, page, base);
      NewPageIs(shape, page, base);
      NewPageFacts(shape, page, base);
      AddedSound(shape, v, page, base);
      AddListed(pmem, shape, v, page, base);
      var freelist := InitPageObjects(base, Objects(shape));
      pmem := pmem[page := PageStruct(base, freelist, 0, Objects(shape), NULL)];
      pmem := pmem[page := pmem[page].(next := partialPages)];
      partialPages := page;
      NewPageStored(shape, v, m, mem, page, base);
      assert pmem == pm[page := StructOf(shape, p, PageAddr(v.partial, 0))];
      totalPages := totalPages + 1;
      totalObjects := totalObjects + pmem[page].objects;
      TimesNext(totalPages - 1, Objects(shape));
      TimesSwap(totalPages, Objects(shape));
      TimesSwap(totalPages - 1, Objects(shape));
      v := Added(shape, v, page, base);
    }

    /** free_to_page. */
    method FreeToPage(obj: nat, page: nat)
      requires obj in mem && page in pmem
      modifies `mem, `pmem
      ensures mem == old(mem)[obj := Object(old(pmem)[page].freelist, 0)]
      ensures pmem == old(pmem)[page := old(pmem)[page].(freelist := obj, inuse := old(pmem)[page].inuse - 1)]
    {
      mem := mem[obj := mem[obj].(magic := 0)];
      mem := mem[obj := mem[obj].(next := pmem[page].freelist)];
      pmem := pmem[page := pmem[page].(freelist := obj)];
      pmem := pmem[page := pmem[page].(inuse := pmem[page].inuse - 1)];
    }

    /** cache_free to a page with other free objects: page i of the partial list. */
    method GiveToPartial(obj: nat, page: nat, ghost i: nat)
      requires Kept() && obj in v.out
      requires i < |v.partial| && page == v.partial[i].addr && obj in PageSlots(shape, v.partial[i])
      modifies `mem, `pmem, `v
      ensures Kept() && v == PushedPartial(old(v), i, obj) && Active() == old(Active()) - 1
      ensures i < |v.partial| && page == v.partial[i].addr
      ensures page in pmem && pmem[page].inuse == Used(shape, v.partial[i])
    {
      hide Sound, Stored, PageList, InUse, Objects, PageSlots;
      ghost var m, pm, p := mem, pmem, v.partial[i];
      HeldNotNull(mem, v, obj);
      PushedPartialSound(shape, v, i, obj);
      PushPartialStored(shape, v, mem, i, obj);
      PushPartialListed(pmem, shape, v, i, obj);
      ListHead(pmem, shape, v.partial, i);
      FreeToPage(obj, page);
      assert pmem == PushPartialStructs(pm, shape, v, i, obj);
      SetHead(v.partial, i, p.(free := [obj] + p.free));
      v := PushedPartial(v, i, obj);
    }

    /** cache_free to page i of the full list, which moves to the front of the partial list. */
    method GiveToFull(obj: nat, page: nat, ghost i: nat)
      requires Kept() && obj in v.out
      requires i < |v.full| && page == v.full[i].addr && obj in PageSlots(shape, v.full[i])
      modifies `mem, `pmem, `partialPages, `fullPages, `v
      ensures Kept() && v == PushedFull(old(v), i, obj) && Active() == old(Active()) - 1
      ensures v.partial != [] && page == v.partial[0].addr
      ensures page in pmem && pmem[page].inuse == Used(shape, v.partial[0])
    {
      hide Sound, Stored, PageList, InUse, Objects, PageSlots, Distinct;
      ListsDistinct(shape, v);
      ghost var m, pm, p := mem, pmem, v.full[i];
      ghost var q := p.(free := [obj]);
      FullIsFull(shape, v, i);
      HeldNotNull(mem, v, obj);
      PushedFullSound(shape, v, i, obj);
      PushFullStored(shape, v, mem, i, obj);
      PushFullListed(pmem, shape, v, i, obj);
      ListHead(pmem, shape, v.full, i);
      FreeToPage(obj, page);
      assert pmem == pm[page := StructOf(shape, q, PageAddr(v.full, i + 1))];
      ListSet(pm, shape, v.full, i, q);
      SetDistinct(v.full, i, q);
      PushedFullPlace(pm, shape, v, i, obj);
      PushFullIs(pm, shape, v, i, obj);
      hide Unlinked, PushFullStructs;
      fullPages := RemovePage(fullPages, page, v.full[i := q], i);
      pmem := pmem[page := pmem[page].(next := partialPages)];
      partialPages := page;
      assert pmem == PushFullStructs(pm, shape, v, i, obj);
      v := PushedFull(v, i, obj);
    }

    /** free_slub_page, after the page left the partial list. */
    method DropPage(page: nat, ghost i: nat)
      requires Kept() && i < |v.partial| && page == v.partial[i].addr && Used(shape, v.partial[i]) == 0
      modifies `pmem, `partialPages, `totalPages, `totalObjects, `v
      ensures Kept() && v == Dropped(old(v), i) && Active() == old(Active())
    {
      hide Sound, Stored, PageList, InUse, Objects;
      ListsDistinct(shape, v);
      DroppedSound(shape, v, i);
      DroppedStored(mem, v, i);
      DropListed(pmem, shape, v, i);
      ListHead(pmem, shape, v.partial, i);
      var objects := pmem[page].objects;
      partialPages := RemovePage(partialPages, page, v.partial, i);
      TimesNext(totalPages - 1, Objects(shape));
      TimesSwap(totalPages, Objects(shape));
      TimesSwap(totalPages - 1, Objects(shape));
      totalPages := totalPages - 1;
      totalObjects := totalObjects - objects;
      v := Dropped(v, i);
    }

    // ---- the CPU caches ----

    /** What the CPU methods keep: everything but the count of callers. */
    ghost predicate Running()
      reads this, batchObjects, batchCount, freelists
    {
      Kept() && CpusOk() && activeObjects == Active()
    }

    /** The last object of a batch that is not empty. */
    method TakeFromBatch(c: nat) returns (obj: nat)
      requires Running() && c < MAX_CPUS && v.batches[c] != []
      modifies batchCount, `v
      ensures Running() && v == BatchOut(old(v), c)
      ensures obj == old(v.batches[c][|v.batches[c]| - 1]) && obj != NULL
    {
      hide Sound, Stored, PageList, InUse, Objects;
      SoundBatches(shape, v);
      BatchOutSound(shape, v, c);
      BatchOutStored(shape, v, mem, c);
      batchCount[c] := batchCount[c] - 1;
      obj := batchObjects[c, batchCount[c]];
      v := BatchOut(v, c);
    }

    /** An object that was just taken goes to a batch that is not full. */
    method PutInBatch(c: nat, obj: nat)
      requires Kept() && CpusOk() && c < MAX_CPUS && |v.batches[c]| < BATCH_SIZE && obj in v.out
      modifies `v, batchObjects, batchCount
      ensures Kept() && CpusOk() && v == BatchIn(old(v), c, obj)
    {
      hide Sound, Stored, PageList, InUse, Objects;
      BatchInSound(shape, v, c, obj);
      BatchInStored(shape, v, mem, c, obj);
      batchObjects[c, batchCount[c]] := obj;
      batchCount[c] := batchCount[c] + 1;
      v := BatchIn(v, c, obj);
    }

    /** An object from the page lists, for cache_alloc and for refill_cpu_cache. */
    method PageAlloc(supply: seq<Grant>) returns (obj: nat, rest: seq<Grant>)
      requires Running() && Supplied(shape, v.bases, supply)
      modifies `mem, `pmem, `partialPages, `fullPages, `totalPages, `totalObjects, `activeObjects, `v
      ensures Running() && Supplied(shape, v.bases, rest)
      ensures obj == NULL <==> old(v).partial == [] && Fails(supply, 0)
      ensures rest == Spent(old(v), supply)
      ensures obj == NULL ==> v == old(v)
      ensures obj != NULL ==> v.out == old(v).out + multiset{obj} && v.batches == old(v).batches && v.lists == old(v).lists
      ensures obj != NULL ==> FromPage(shape, old(v), v, supply, obj)
    {
      hide Sound, Stored, PageList, InUse, Objects, Popped, Supplied, Added, Listed;
      rest := supply;
      var page := partialPages;
      PartialHead(shape, pmem, v);
      if page == NULL {
        page, rest := AllocSlubPage(rest);
        if page == NULL {
          return NULL, rest;
        }
        AddedIs(shape, old(v), supply[0].page, supply[0].memory);
      }
      PoppedAfter(shape, v);
      obj := TakeObject(page);
      activeObjects := activeObjects + 1;
    }

    /** One round of refill_cpu_cache. */
    method RefillOne(c: nat, supply: seq<Grant>, ghost n: nat) returns (ok: bool, rest: seq<Grant>)
      requires Running() && Supplied(shape, v.bases, supply) && c < MAX_CPUS && |v.batches[c]| < BATCH_SIZE && n > 0
      modifies `mem, `pmem, `partialPages, `fullPages, `totalPages, `totalObjects, `activeObjects, `v, batchObjects, batchCount
      ensures Running() && Supplied(shape, v.bases, rest)
      ensures ok <==> old(v).partial != [] || !Fails(supply, 0)
      ensures !ok ==> (v, rest) == Refilled(shape, old(v), c, n, supply) && v == old(v) && rest == Rest(supply)
      ensures ok ==> Refilled(shape, v, c, n - 1, rest) == Refilled(shape, old(v), c, n, supply)
      ensures ok ==> v.out == old(v).out && v.lists == old(v).lists && |v.batches[c]| == |old(v).batches[c]| + 1
      ensures ok ==> forall d :: 0 <= d < MAX_CPUS && d != c ==> v.batches[d] == old(v).batches[d]
    {
      hide Sound, Stored, PageList, InUse, Objects, Popped, Supplied, Added, Listed, Fails, Provided, Refilled, FromPage, Spent;
      var obj;
      obj, rest := PageAlloc(supply);
      if obj == NULL {
        RefillStops(shape, v, c, n, supply);
        return false, rest;
      }
      RefillGoesOn(shape, old(v), v, c, n, supply, obj);
      PutInBatch(c, obj);
      assert v.out == old(v).out;
      ok := true;
    }

    /** refill_cpu_cache: 8 objects of partial pages, or of new ones, or as many as there are. */
    method RefillCpuCache(c: nat, supply: seq<Grant>) returns (rest: seq<Grant>)
      requires Running() && Supplied(shape, v.bases, supply) && c < MAX_CPUS && v.batches[c] == []
      modifies `mem, `pmem, `partialPages, `fullPages, `totalPages, `totalObjects, `activeObjects, `v, batchObjects, batchCount
      ensures Running() && Supplied(shape, v.bases, rest)
      ensures (v, rest) == Refilled(shape, old(v), c, BATCH_SIZE / 2, supply)
      ensures v.out == old(v).out && v.lists == old(v).lists
      ensures forall d :: 0 <= d < MAX_CPUS && d != c ==> v.batches[d] == old(v).batches[d]
      ensures |v.batches[c]| <= BATCH_SIZE / 2
      ensures v.batches[c] == [] <==> old(v).partial == [] && Fails(supply, 0)
      ensures v.batches[c] == [] ==> v == old(v) && rest == Rest(supply)
    {
      hide Sound, Stored, PageList, InUse, Objects, Supplied, Listed, Fails, Refilled;
      rest := supply;
      var i: nat, ok := 0, true;
      ghost var v0 := v;
      while i < BATCH_SIZE / 2 && ok
        invariant i <= BATCH_SIZE / 2 && Running() && Supplied(shape, v.bases, rest)
        invariant v.out == v0.out && v.lists == v0.lists
        invariant forall d :: 0 <= d < MAX_CPUS && d != c ==> v.batches[d] == v0.batches[d]
        invariant |v.batches[c]| == i
        invariant ok ==> Refilled(shape, v, c, BATCH_SIZE / 2 - i, rest) == Refilled(shape, v0, c, BATCH_SIZE / 2, supply)
        invariant !ok ==> (v, rest) == Refilled(shape, v0, c, BATCH_SIZE / 2, supply)
        invariant i == 0 ==> v == v0 && rest == if ok then supply else Rest(supply)
        invariant i > 0 || !ok ==> (i == 0 <==> v0.partial == [] && Fails(supply, 0))
        decreases BATCH_SIZE / 2 - i, ok
      {
        ok, rest := RefillOne(c, rest, BATCH_SIZE / 2 - i);
        if ok {
          i := i + 1;
        }
      }
      RefilledNone(shape, v, c, rest);
    }

    /** cpu_cache_alloc. */
    method CpuCacheAlloc(cpu: nat, supply: seq<Grant>) returns (obj: nat, rest: seq<Grant>)
      requires Running() && Supplied(shape, v.bases, supply)
      modifies `mem, `pmem, `partialPages, `fullPages, `totalPages, `totalObjects, `activeObjects, `v,
               batchObjects, batchCount, freelists
      ensures Running() && Supplied(shape, v.bases, rest)
      ensures obj == NULL <==> CpuEmpty(old(v), Cpu(cpu)) && old(v).partial == [] && Fails(supply, 0)
      ensures obj == NULL ==> v == old(v) && rest == Rest(supply)
      ensures obj != NULL ==> v.out == old(v).out + multiset{obj}
      ensures OthersKept(old(v), v, Cpu(cpu))
      ensures CpuServed(shape, old(v), v, Cpu(cpu), supply, obj)
    {
      hide Sound, Stored, PageList, InUse, Objects, Supplied, Fails, Refilled;
      rest := supply;
      var c := Cpu(cpu);
      if batchCount[c] > 0 {
        obj := TakeFromBatch(c);
        return;
      }
      HeadOfList(shape, v, mem, c);
      if freelists[c] != NULL {
        ListOutSound(shape, v, c);
        obj := freelists[c];
        freelists[c] := mem[obj].next;
        v := ListOut(v, c);
        return;
      }
      rest := RefillCpuCache(c, rest);
      if batchCount[c] > 0 {
        obj := TakeFromBatch(c);
        return;
      }
      obj := NULL;
    }

    /** cpu_cache_free. */
    method CpuCacheFree(cpu: nat, obj: nat)
      requires Running() && obj in v.out
      modifies `mem, `v, batchObjects, batchCount, freelists
      ensures Running()
      ensures v == if |old(v).batches[Cpu(cpu)]| < BATCH_SIZE then BatchIn(old(v), Cpu(cpu), obj)
                   else ListIn(old(v), Cpu(cpu), obj)
    {
      hide Sound, Stored, PageList, InUse, Objects;
      var c := Cpu(cpu);
      if batchCount[c] < BATCH_SIZE {
        PutInBatch(c, obj);
        return;
      }
      ListInSound(shape, v, c, obj);
      ListInStored(shape, v, mem, c, obj);
      mem := mem[obj := mem[obj].(next := freelists[c])];
      freelists[c] := obj;
      v := ListIn(v, c, obj);
    }

    // ---- cache_alloc and cache_free ----

    /** cache_alloc. */
    method CacheAlloc(cpu: nat, supply: seq<Grant>) returns (obj: nat, rest: seq<Grant>)
      requires Valid() && Supplied(shape, v.bases, supply)
      modifies this, batchObjects, batchCount, freelists
      ensures Valid() && Supplied(shape, v.bases, rest)
      ensures obj == NULL <==> old(v).partial == [] && Fails(supply, 0)
                               && (percpu ==> CpuEmpty(old(v), Cpu(cpu)) && Fails(supply, 1))
      ensures obj == NULL ==> v == old(v)
      ensures obj != NULL ==> v.out == old(v).out + multiset{obj} && obj !in old(v).out
      ensures percpu ==> FromOwnCache(shape, old(v), v, if cpu < 32 then cpu else 0, supply, obj)
      ensures !percpu ==> FromPages(shape, old(v), v, supply, obj)
      ensures OthersKept(old(v), v, Cpu(cpu))
      ensures AllocServed(shape, percpu, old(v), v, Cpu(cpu), supply, obj)
      ensures allocations == old(allocations) + (if obj == NULL then 0 else 1) && frees == old(frees)
    {
      hide Sound, Stored, PageList, InUse, Objects, Popped, Supplied, Fails, OthersKept, AllocServed, CpuEmpty, FromOwnCache,
        FromPages, Lean;
      SoundSome(shape, v);
      obj, rest := AllocAny(cpu, supply);
      AllocLean(shape, percpu, old(v), v, Cpu(cpu), supply, obj);
      if obj != NULL {
        allocations := allocations + 1;
        OutOnce(shape, v, obj);
      }
      ServedIs(shape, percpu, old(v), v, Cpu(cpu), supply, obj);
    }

    /** The CPU cache first, if there is one, and then the pages. */
    method AllocAny(cpu: nat, supply: seq<Grant>) returns (obj: nat, rest: seq<Grant>)
      requires Running() && Supplied(shape, v.bases, supply)
      modifies `mem, `pmem, `partialPages, `fullPages, `totalPages, `totalObjects, `activeObjects, `v,
               batchObjects, batchCount, freelists
      ensures Running() && Supplied(shape, v.bases, rest)
      ensures obj == NULL <==> old(v).partial == [] && Fails(supply, 0)
                               && (percpu ==> CpuEmpty(old(v), Cpu(cpu)) && Fails(supply, 1))
      ensures obj == NULL ==> v == old(v)
      ensures obj != NULL ==> v.out == old(v).out + multiset{obj}
      ensures !percpu ==> v.batches == old(v).batches && v.lists == old(v).lists
      ensures OthersKept(old(v), v, Cpu(cpu))
      ensures AllocServed(shape, percpu, old(v), v, Cpu(cpu), supply, obj)
    {
      hide Sound, Stored, PageList, InUse, Objects, Popped, Supplied, Added, Listed, Fails, FromPage, CpuServed,
        OthersKept, AllocServed, CpuEmpty, Spent;
      OthersSame(v, Cpu(cpu));
      RestSupplied(shape, v.bases, supply);
      rest := supply;
      if percpu {
        obj, rest := CpuCacheAlloc(cpu, rest);
        if obj != NULL {
          ServedByCpu(shape, old(v), v, Cpu(cpu), supply, obj);
          return;
        }
      }
      ghost var left := rest;
      obj, rest := PageAlloc(rest);
      ServedByPage(shape, percpu, old(v), v, Cpu(cpu), supply, left, obj);
    }

    /** The search of cache_free: first the full pages, then the partial ones. */
    method FindOwner(obj: nat) returns (page: nat, wasFull: bool, ghost i: nat)
      requires Kept() && obj in v.out
      ensures page != NULL && OnPage(shape, v, obj, wasFull, i)
      ensures page == if wasFull then v.full[i].addr else v.partial[i].addr
    {
      hide Sound, Stored, PageList, InUse, Objects, PageSlots;
      ghost var full, at := OwnerOf(shape, v, obj);
      page, i := FindPage(fullPages, obj, v.full);
      wasFull := page != NULL;
      if wasFull {
        RegionOwner(shape, v, obj, full, at, true, i);
        return;
      }
      page, i := FindPage(partialPages, obj, v.partial);
      assert !full;
      assert page != NULL;
      RegionOwner(shape, v, obj, full, at, false, i);
    }

    /** cache_free of an object that came from a page list: back to its page, which is given up when it
        was the last object in use and other pages remain. */
    method PageFree(obj: nat)
      requires Running() && obj in v.out
      modifies `mem, `pmem, `partialPages, `fullPages, `totalPages, `totalObjects, `activeObjects, `v
      ensures Running() && Returned(shape, old(v), v, obj)
    {
      hide Sound, Stored, PageList, InUse, Objects, Listed, PageSlots, Used, PushedFull, PushedPartial, Dropped;
      ActivePositive(shape, v, obj);
      var page, wasFull, i := FindOwner(obj);
      ghost var at := i;
      AfterReturnIs(shape, v, obj, wasFull, at);
      if wasFull {
        GiveToFull(obj, page, i);
        i := 0;
      } else {
        GiveToPartial(obj, page, i);
      }
      activeObjects := activeObjects - 1;
      if pmem[page].inuse == 0 && totalPages > 1 {
        DropPage(page, i);
      }
      assert v == AfterReturn(shape, old(v), obj, wasFull, at);
    }

    /** cache_free of an object that a caller holds, or of an address whose mark is gone. */
    method CacheFree(cpu: nat, obj: nat)
      requires Valid() && (obj == NULL || obj in v.out || (obj in mem && mem[obj].magic != SLUB_MAGIC))
      modifies this, batchObjects, batchCount, freelists
      ensures Valid()
      ensures obj == NULL || obj !in old(v).out ==> v == old(v) && frees == old(frees)
      ensures obj in old(v).out && percpu ==>
        v == if |old(v).batches[Cpu(cpu)]| < BATCH_SIZE then BatchIn(old(v), Cpu(cpu), obj) else ListIn(old(v), Cpu(cpu), obj)
      ensures obj in old(v).out && !percpu ==> Returned(shape, old(v), v, obj) && |v.partial| + |v.full| >= 1
      ensures obj in old(v).out && percpu ==> ToOwnCache(old(v), v, if cpu < 32 then cpu else 0, obj)
      ensures obj in old(v).out ==> v.out == old(v).out - multiset{obj} && frees == old(frees) + 1
      ensures allocations == old(allocations)
    {
      hide Sound, Stored, PageList, InUse, Objects, Listed, Returned, Lean, ToOwnCache;
      HeldNotNull(mem, v, obj);
      if obj == NULL {
        return;
      }
      if mem[obj].magic != SLUB_MAGIC {
        return;
      }
      if percpu {
        CpuCacheFree(cpu, obj);
        GivenToCpu(shape, old(v), v, Cpu(cpu), obj);
        frees := frees + 1;
        return;
      }
      PageFree(obj);
      ReturnedKeeps(shape, old(v), v, obj);
      ReturnedLean(shape, old(v), v, obj);
      frees := frees + 1;
    }
  }

  /** Pages that are not needed are not kept: a page with nothing in use is the only page there is. */
  ghost predicate Lean(s: Shape, v: Pools)
    requires s.size > 0
  {
    forall i {:trigger v.partial[i]} :: 0 <= i < |v.partial| ==>
      |v.partial[i].free| <= Objects(s) && (|v.partial[i].free| == Objects(s) ==> |v.partial| + |v.full| == 1)
  }

  /** What CPU c holds is served first: the object it freed last, then the first one of its list, with no other
      change. If it holds nothing, the batch is filled with 8 page objects, or as many as there are until the
      request for a further page fails, and one of them taken; if there was none, the pages are asked once more. */
  ghost predicate FromOwnCache(s: Shape, v: Pools, w: Pools, c: nat, supply: seq<Grant>, a: nat)
    requires s.size > 0
  {
    && c < |v.batches| && c < |v.lists|
    && var b := v.batches[c];
       if b != [] then
         a == b[|b| - 1] && w == v.(batches := v.batches[c := b[..|b| - 1]], out := v.out + multiset{a})
       else if v.lists[c] != [] then
         a == v.lists[c][0] && w == v.(lists := v.lists[c := v.lists[c][1..]], out := v.out + multiset{a})
       else if v.partial == [] && Fails(supply, 0) then FromPages(s, v, w, Rest(supply), a)
       else
         && a != NULL && a !in v.out && |w.batches| == |v.batches| && w.lists == v.lists
         && (|w.batches[c]| == 7 || (|w.batches[c]| < 7 && RanOut(v, w, supply)))
  }

  /** No page has a free object, and after the pages that were added the request for another one failed. */
  ghost predicate RanOut(v: Pools, w: Pools, supply: seq<Grant>) {
    var added := |w.partial| + |w.full| - |v.partial| - |v.full|;
    w.partial == [] && added >= 0
    && (added >= |supply| || supply[added].memory == 0 || supply[added].page == 0)
  }

  /** The first free object of the first partial page, or else the last object of a new page. A page without
      free objects left goes to the front of the full list. */
  ghost predicate FromPages(s: Shape, v: Pools, w: Pools, supply: seq<Grant>, a: nat)
    requires s.size > 0
  {
    w.batches == v.batches && w.lists == v.lists
    && if v.partial != [] then FromFirst(v, v.partial, w, v.full, a) && w.bases == v.bases
       else if supply == [] || supply[0].memory == 0 || supply[0].page == 0 then w == v && a == NULL
       else
         var g := supply[0];
         var p := NewPage(s, g.page, g.memory);
         FromFirst(v, [p], w, v.full, a) && w.bases == v.bases[g.page := g.memory]
         && a == g.memory + (|p.free| - 1) * s.size
  }

  ghost predicate FromFirst(v: Pools, partial: seq<Page>, w: Pools, full: seq<Page>, a: nat) {
    && partial != [] && partial[0].free != [] && a == partial[0].free[0] && w.out == v.out + multiset{a}
    && var p := partial[0].(free := partial[0].free[1..]);
       if |partial[0].free| == 1 then w.full == [p] + full && w.partial == partial[1..]
       else w.full == full && w.partial == [p] + partial[1..]
  }

  /** The freed object goes to the end of the batch of CPU c while that has less than 16, and else to the front
      of its list, with no other change. */
  ghost predicate ToOwnCache(v: Pools, w: Pools, c: nat, a: nat) {
    && c < |v.batches| && c < |v.lists|
    && w == if |v.batches[c]| < 16
            then v.(batches := v.batches[c := v.batches[c] + [a]], out := v.out - multiset{a})
            else v.(lists := v.lists[c := [a] + v.lists[c]], out := v.out - multiset{a})
  }

  lemma GivenToCpu(s: Shape, v: Pools, w: Pools, c: nat, a: nat)
    requires s.size > 0 && c < |v.batches| && c < |v.lists|
    requires w == if |v.batches[c]| < BATCH_SIZE then BatchIn(v, c, a) else ListIn(v, c, a)
    ensures ToOwnCache(v, w, c, a) && (Lean(s, v) ==> Lean(s, w))
  {
  }

  /** The next allocation on a CPU gives back the object that was freed there last, and the cache is as it was,
      exactly if the batch had room for it. */
  lemma FreedComesBackIff(s: Shape, v: Pools, w: Pools, x: Pools, c: nat, supply: seq<Grant>, a: nat, b: nat)
    requires Sound(s, v) && a in v.out && ToOwnCache(v, w, c, a) && FromOwnCache(s, w, x, c, supply, b)
    ensures |v.batches[c]| < 16 <==> b == a
    ensures |v.batches[c]| < 16 ==> x == v
  {
    hide ToOwnCache, FromOwnCache;
    HeldIsNowhereElse(s, v, a);
    OutAndIn(s, v, w, x, c, supply, a, b);
  }

  lemma OutAndIn(s: Shape, v: Pools, w: Pools, x: Pools, c: nat, supply: seq<Grant>, a: nat, b: nat)
    requires s.size > 0 && a in v.out && a !in Bag(v.batches)
    requires ToOwnCache(v, w, c, a) && FromOwnCache(s, w, x, c, supply, b)
    ensures |v.batches[c]| < 16 <==> b == a
    ensures |v.batches[c]| < 16 ==> x == v
  {
    hide Bag, FromPages, RanOut, Fails, Rest;
    var l := v.batches[c];
    if |l| < 16 {
      assert (l + [a])[..|l|] == l && v.batches[c := l + [a]][c := l] == v.batches;
      assert v.out - multiset{a} + multiset{a} == v.out;
    } else {
      InBag(v.batches, c, l[|l| - 1]);
    }
  }

  lemma ServedIs(s: Shape, percpu: bool, v: Pools, w: Pools, c: nat, supply: seq<Grant>, a: nat)
    requires ShapeOk(s) && SomeFree(v.partial)
    requires AllocServed(s, percpu, v, w, c, supply, a) && c < |v.batches| && c < |v.lists|
    requires a != NULL ==> w.out == v.out + multiset{a} && w.out[a] <= 1
    requires a == NULL ==> v.partial == [] && Fails(supply, 0) && (percpu ==> CpuEmpty(v, c))
    ensures percpu ==> FromOwnCache(s, v, w, c, supply, a)
    ensures !percpu ==> FromPages(s, v, w, supply, a)
  {
    hide FromPage, FromPages, CpuServed, FromOwnCache, Rest, SomeFree, Fails, Objects, CpuEmpty;
    var rest := if percpu then Rest(supply) else supply;
    if percpu && !(CpuEmpty(v, c) && v.partial == [] && Fails(supply, 0)) {
      OwnCacheServed(s, v, w, c, supply, a);
    } else {
      PagesServed(s, v, w, rest, a);
      if percpu { PagesAfterAll(s, v, w, c, supply, a); }
    }
  }

  lemma SoundSome(s: Shape, v: Pools)
    requires Sound(s, v)
    ensures ShapeOk(s) && SomeFree(v.partial)
  {
  }

  lemma PagesAfterAll(s: Shape, v: Pools, w: Pools, c: nat, supply: seq<Grant>, a: nat)
    requires s.size > 0 && CpuEmpty(v, c) && v.partial == [] && Fails(supply, 0) && FromPages(s, v, w, Rest(supply), a)
    ensures FromOwnCache(s, v, w, c, supply, a)
  {
  }

  lemma OwnCacheServed(s: Shape, v: Pools, w: Pools, c: nat, supply: seq<Grant>, a: nat)
    requires ShapeOk(s) && SomeFree(v.partial) && CpuServed(s, v, w, c, supply, a) && !(CpuEmpty(v, c) && v.partial == [] && Fails(supply, 0))
    requires w.out == v.out + multiset{a} && w.out[a] <= 1 && a != NULL
    ensures FromOwnCache(s, v, w, c, supply, a)
  {
    hide Objects, SomeFree, Refilled, FromPages, RanOut, Fails;
    assert (v.out + multiset{a})[a] == v.out[a] + 1;
    RefilledFills(s, v, c, 8, supply);
    var r := Refilled(s, v, c, 8, supply).0;
    SameRanOut(v, r, supply);
  }

  lemma SameRanOut(v: Pools, r: Pools, supply: seq<Grant>)
    ensures forall w: Pools :: w.partial == r.partial && w.full == r.full ==> (RanOut(v, w, supply) <==> RanOut(v, r, supply))
  {
  }

  lemma PagesServed(s: Shape, v: Pools, w: Pools, supply: seq<Grant>, a: nat)
    requires s.size > 0
    requires (v.partial == [] && Fails(supply, 0) && w == v && a == NULL) || FromPage(s, v, w, supply, a)
    ensures FromPages(s, v, w, supply, a)
  {
    if v.partial == [] && !Fails(supply, 0) { NewPageIsFilled(s, supply[0].page, supply[0].memory); }
    hide NewPage;
  }

  /** A refill goes on until it is complete, or the partial pages are used up and a request for a new one fails. */
  lemma {:induction false} RefilledFills(s: Shape, v: Pools, c: nat, n: nat, supply: seq<Grant>)
    requires ShapeOk(s) && SomeFree(v.partial) && c < |v.batches|
    ensures var r := Refilled(s, v, c, n, supply).0;
      && |r.batches| == |v.batches| && r.lists == v.lists && |v.batches[c]| <= |r.batches[c]| <= |v.batches[c]| + n
      && (|r.batches[c]| < |v.batches[c]| + n ==> RanOut(v, r, supply))
    decreases n
  {
    var x := Provided(s, v, supply);
    ProvidedSome(s, v, supply);
    hide Objects, NewPage, SomeFree, Fails, RanOut, Provided, Spent;
    if n > 0 && x.partial != [] {
      PoppedSome(x);
      var a := x.partial[0].free[0];
      var y := BatchIn(Popped(x), c, a);
      RefilledFills(s, y, c, n - 1, Spent(v, supply));
      RanOutLater(s, v, y, Refilled(s, y, c, n - 1, Spent(v, supply)).0, supply);
    } else if n > 0 {
      RanOutNow(v, supply);
    }
  }

  lemma RanOutNow(v: Pools, supply: seq<Grant>)
    ensures v.partial == [] && Fails(supply, 0) ==> RanOut(v, v, supply)
  {
  }

  lemma RanOutLater(s: Shape, v: Pools, y: Pools, r: Pools, supply: seq<Grant>)
    requires s.size > 0
    requires var x := Provided(s, v, supply); x.partial != [] && |y.partial| + |y.full| == |x.partial| + |x.full|
    ensures RanOut(y, r, Spent(v, supply)) ==> RanOut(v, r, supply)
  {
  }

  lemma ProvidedSome(s: Shape, v: Pools, supply: seq<Grant>)
    requires ShapeOk(s) && SomeFree(v.partial)
    ensures var x := Provided(s, v, supply);
      && SomeFree(x.partial) && x.batches == v.batches && x.lists == v.lists && (x.partial != [] ==> x.partial[0].free != [])
      && (x.partial == [] ==> v.partial == [] && Fails(supply, 0))
  {
    if v.partial == [] && !Fails(supply, 0) { NewPageSize(s, supply[0].page, supply[0].memory); }
    hide NewPage, Objects;
  }

  lemma PoppedSome(v: Pools)
    requires SomeFree(v.partial) && v.partial != [] && v.partial[0].free != []
    ensures SomeFree(Popped(v).partial) && Popped(v).batches == v.batches && Popped(v).lists == v.lists
    ensures |Popped(v).partial| + |Popped(v).full| == |v.partial| + |v.full|
  {
    var w := Popped(v);
    if |v.partial[0].free| == 1 {
      assert forall i {:trigger w.partial[i]} :: 0 <= i < |w.partial| ==> w.partial[i] == v.partial[i + 1];
    } else {
      assert forall i {:trigger w.partial[i]} :: 1 <= i < |w.partial| ==> w.partial[i] == v.partial[i];
    }
  }

  lemma FromPageLean(s: Shape, v: Pools, w: Pools, supply: seq<Grant>, a: nat)
    requires s.size > 0 && Lean(s, v) && FromPage(s, v, w, supply, a)
    ensures Lean(s, w)
  {
    hide Objects, NewPage;
    var x := Provided(s, v, supply);
    if v.partial == [] { NewPageSize(s, supply[0].page, supply[0].memory); }
    assert LeanBut(s, x, 0);
    PoppedLean(s, x);
  }

  lemma NewPageSize(s: Shape, addr: nat, base: nat)
    requires s.size > 0
    ensures |NewPage(s, addr, base).free| == Objects(s)
  {
    BackwardsSame(Slots(base, s.size, Objects(s)));
    SlotsBetween(base, s.size, Objects(s));
  }

  lemma PoppedLean(s: Shape, v: Pools)
    requires s.size > 0 && v.partial != [] && v.partial[0].free != [] && LeanBut(s, v, 0)
    ensures Lean(s, Popped(v))
  {
    hide Objects;
    var w := Popped(v);
    if |v.partial[0].free| == 1 {
      assert forall i {:trigger w.partial[i]} :: 0 <= i < |w.partial| ==> w.partial[i] == v.partial[i + 1];
    } else {
      assert forall i {:trigger w.partial[i]} :: 1 <= i < |w.partial| ==> w.partial[i] == v.partial[i];
    }
  }

  lemma {:induction false} RefilledLean(s: Shape, v: Pools, c: nat, n: nat, supply: seq<Grant>)
    requires s.size > 0 && Lean(s, v)
    ensures Lean(s, Refilled(s, v, c, n, supply).0)
    decreases n
  {
    hide Lean, Provided, Popped;
    var x := Provided(s, v, supply);
    if n > 0 && x.partial != [] && x.partial[0].free != [] && c < |x.batches| {
      var a := x.partial[0].free[0];
      PoppedBatches(s, v, supply);
      PoppedKeeps(x);
      FromPageLean(s, v, Popped(x), supply, a);
      SamePagesLean(s, Popped(x));
      RefilledLean(s, BatchIn(Popped(x), c, a), c, n - 1, Spent(v, supply));
    }
  }

  lemma PoppedKeeps(v: Pools)
    requires v.partial != [] && v.partial[0].free != []
    ensures Popped(v).batches == v.batches && Popped(v).lists == v.lists
  {
  }

  lemma SamePagesLean(s: Shape, v: Pools)
    requires s.size > 0
    ensures forall w: Pools :: w.partial == v.partial && w.full == v.full ==> (Lean(s, w) <==> Lean(s, v))
  {
  }

  lemma AllocLean(s: Shape, percpu: bool, v: Pools, w: Pools, c: nat, supply: seq<Grant>, a: nat)
    requires s.size > 0 && AllocServed(s, percpu, v, w, c, supply, a) && Lean(s, v)
    ensures Lean(s, w)
  {
    hide Lean, FromPage, Provided;
    SamePagesLean(s, v);
    RefilledLean(s, v, c, BATCH_SIZE / 2, supply);
    var r := Refilled(s, v, c, BATCH_SIZE / 2, supply).0;
    SamePagesLean(s, r);
    hide Refilled;
    var rest := if percpu then Rest(supply) else supply;
    if FromPage(s, v, w, rest, a) { FromPageLean(s, v, w, rest, a); }
  }

  /** A page that is given back to, and not given up, keeps something in use or is the only page. */
  lemma ReturnedLean(s: Shape, v: Pools, w: Pools, a: nat)
    requires Sound(s, v) && Lean(s, v) && Returned(s, v, w, a)
    ensures Lean(s, w) && |w.partial| + |w.full| >= 1
  {
    assert s.size > 0;
    hide OnPage, Sound, Lean, AfterReturn;
    var full, i :| OnPage(s, v, a, full, i) && w == AfterReturn(s, v, a, full, i);
    ReturnedAtLean(s, v, full, i, a);
  }

  lemma ReturnedAtLean(s: Shape, v: Pools, full: bool, i: nat, a: nat)
    requires Sound(s, v) && Lean(s, v) && a in v.out && OnPage(s, v, a, full, i)
    ensures var w := AfterReturn(s, v, a, full, i); Lean(s, w) && |w.partial| + |w.full| >= 1
  {
    assert s.size > 0 && if full then i < |v.full| else i < |v.partial|;
    hide OnPage, Used, Sound, Lean, LeanBut, AfterReturn, PushedFull, PushedPartial, Dropped;
    var x := if full then PushedFull(v, i, a) else PushedPartial(v, i, a);
    var k := if full then 0 else i;
    AfterReturnIs(s, v, a, full, i);
    GivenLean(s, v, full, i, a);
    if Used(s, x.partial[k]) == 0 && |v.partial| + |v.full| > 1 {
      DroppedLean(s, x, k);
    } else {
      KeptLean(s, x, k);
    }
  }

  /** All pages but page k are as they should be. */
  ghost predicate LeanBut(s: Shape, v: Pools, k: nat)
    requires s.size > 0
  {
    forall i {:trigger v.partial[i]} :: 0 <= i < |v.partial| ==>
      |v.partial[i].free| <= Objects(s) && (i != k && |v.partial[i].free| == Objects(s) ==> |v.partial| + |v.full| == 1)
  }

  lemma KeptLean(s: Shape, v: Pools, k: nat)
    requires s.size > 0 && LeanBut(s, v, k) && k < |v.partial|
    requires Used(s, v.partial[k]) == 0 ==> |v.partial| + |v.full| <= 1
    ensures Lean(s, v)
  {
  }

  lemma DroppedLean(s: Shape, v: Pools, k: nat)
    requires s.size > 0 && LeanBut(s, v, k) && k < |v.partial| && |v.partial| + |v.full| > 1
    ensures Lean(s, Dropped(v, k)) && |Dropped(v, k).partial| + |v.full| >= 1 && Dropped(v, k).full == v.full
  {
    hide Objects;
    var w := Dropped(v, k);
    assert forall j {:trigger w.partial[j]} :: 0 <= j < |w.partial| ==> w.partial[j] == v.partial[if j < k then j else j + 1];
  }

  lemma GivenLean(s: Shape, v: Pools, full: bool, i: nat, a: nat)
    requires Sound(s, v) && Lean(s, v) && a in v.out && OnPage(s, v, a, full, i)
    ensures var x := if full then PushedFull(v, i, a) else PushedPartial(v, i, a);
      LeanBut(s, x, if full then 0 else i)
  {
    assert s.size > 0;
    GivenWithin(s, v, full, i, a);
    hide Objects, PageSlots, Sound, LeanBut, Lean;
    if full { FrontLean(s, v, i, a); } else { InPlaceLean(s, v, i, a); }
  }

  lemma FrontLean(s: Shape, v: Pools, i: nat, a: nat)
    requires s.size > 0 && Lean(s, v) && i < |v.full| && a in v.out && Objects(s) >= 1
    ensures LeanBut(s, PushedFull(v, i, a), 0)
  {
    hide Objects;
    var x := PushedFull(v, i, a);
    assert forall j {:trigger x.partial[j]} :: 1 <= j < |x.partial| ==> x.partial[j] == v.partial[j - 1];
  }

  lemma InPlaceLean(s: Shape, v: Pools, i: nat, a: nat)
    requires s.size > 0 && Lean(s, v) && i < |v.partial| && a in v.out && |v.partial[i].free| < Objects(s)
    ensures LeanBut(s, PushedPartial(v, i, a), i)
  {
    hide Objects;
    var x := PushedPartial(v, i, a);
    assert forall j {:trigger x.partial[j]} :: 0 <= j < |x.partial| && j != i ==> x.partial[j] == v.partial[j];
  }

  lemma GivenWithin(s: Shape, v: Pools, full: bool, i: nat, a: nat)
    requires Sound(s, v) && a in v.out && OnPage(s, v, a, full, i)
    ensures var x := if full then PushedFull(v, i, a) else PushedPartial(v, i, a);
      var k := if full then 0 else i;
      k < |x.partial| && |x.partial[k].free| <= Objects(s)
  {
    if full {
      PushedFullSound(s, v, i, a);
      PartialWithin(s, PushedFull(v, i, a), 0);
    } else {
      PushedPartialSound(s, v, i, a);
      PartialWithin(s, PushedPartial(v, i, a), i);
    }
    hide PageSlots, Sound, Objects;
  }

  lemma PartialWithin(s: Shape, v: Pools, i: nat)
    requires Sound(s, v) && i < |v.partial|
    ensures |v.partial[i].free| <= Objects(s)
  {
    hide Bag, PageSlots, InUse;
    assert PageOk(s, v.bases, v.partial[i]);
    SlotsInRegion(s, v.partial[i]);
    PageFree(s, v.bases, v.partial[i]);
    FewerInBag(multiset(v.partial[i].free), multiset(PageSlots(s, v.partial[i])));
  }

  lemma FewerInBag(x: multiset<nat>, y: multiset<nat>)
    requires x <= y
    ensures |x| <= |y|
  {
    assert y == x + (y - x);
  }

  ghost predicate CpuEmpty(v: Pools, c: nat) {
    c < |v.batches| && c < |v.lists| && v.batches[c] == [] && v.lists[c] == []
  }

  /** What other CPUs hold is as it was. */
  ghost predicate OthersKept(v: Pools, w: Pools, c: nat) {
    && |w.batches| == |v.batches| && |w.lists| == |v.lists|
    && (forall d :: 0 <= d < |v.batches| && d != c ==> w.batches[d] == v.batches[d])
    && (forall d :: 0 <= d < |v.lists| && d != c ==> w.lists[d] == v.lists[d])
  }

  /** Where the next page object comes from: the first partial page, or a new page. */
  function Provided(s: Shape, v: Pools, supply: seq<Grant>): Pools
    requires s.size > 0
  {
    if v.partial != [] || Fails(supply, 0) then v else Added(s, v, supply[0].page, supply[0].memory)
  }

  /** What is left of the supply after one page object was asked for. */
  function Spent(v: Pools, supply: seq<Grant>): seq<Grant> {
    if v.partial != [] then supply else Rest(supply)
  }

  /** a is the first free object of the first partial page, and w is what is left when it is taken. */
  ghost predicate FromPage(s: Shape, v: Pools, w: Pools, supply: seq<Grant>, a: nat)
    requires s.size > 0
  {
    var x := Provided(s, v, supply);
    x.partial != [] && x.partial[0].free != [] && a == x.partial[0].free[0] && w == Popped(x)
  }

  /** What refilling the batch of CPU c with n objects does: one page object after the other, as long as
      there are any. */
  function Refilled(s: Shape, v: Pools, c: nat, n: nat, supply: seq<Grant>): (r: (Pools, seq<Grant>))
    requires s.size > 0
    decreases n
  {
    var x := Provided(s, v, supply);
    if n == 0 then (v, supply)
    else if x.partial == [] || x.partial[0].free == [] || c >= |x.batches| then (v, Spent(v, supply))
    else Refilled(s, BatchIn(Popped(x), c, x.partial[0].free[0]), c, n - 1, Spent(v, supply))
  }

  /** A refill, and the last object of the batch taken. */
  ghost predicate AfterRefill(s: Shape, v: Pools, w: Pools, c: nat, supply: seq<Grant>)
    requires s.size > 0
  {
    var r := Refilled(s, v, c, BATCH_SIZE / 2, supply).0;
    c < |r.batches| && r.batches[c] != [] && w == BatchOut(r, c)
  }

  /** cpu_cache_alloc: batch, then list, then a refill. */
  ghost predicate CpuServed(s: Shape, v: Pools, w: Pools, c: nat, supply: seq<Grant>, a: nat)
    requires s.size > 0
  {
    && c < |v.batches| && c < |v.lists|
    && if v.batches[c] != [] then w == BatchOut(v, c) && a == v.batches[c][|v.batches[c]| - 1]
       else if v.lists[c] != [] then w == ListOut(v, c) && a == v.lists[c][0]
       else if v.partial == [] && Fails(supply, 0) then w == v && a == NULL
       else AfterRefill(s, v, w, c, supply)
  }

  /** cache_alloc: from the CPU cache if there is one and it can be served or refilled, else from a page. */
  ghost predicate AllocServed(s: Shape, percpu: bool, v: Pools, w: Pools, c: nat, supply: seq<Grant>, a: nat)
    requires s.size > 0
  {
    if percpu && !(CpuEmpty(v, c) && v.partial == [] && Fails(supply, 0)) then CpuServed(s, v, w, c, supply, a)
    else
      var rest := if percpu then Rest(supply) else supply;
      if v.partial == [] && Fails(rest, 0) then w == v && a == NULL else FromPage(s, v, w, rest, a)
  }

  lemma ServedByCpu(s: Shape, v: Pools, w: Pools, c: nat, supply: seq<Grant>, a: nat)
    requires s.size > 0 && CpuServed(s, v, w, c, supply, a) && a != NULL
    ensures AllocServed(s, true, v, w, c, supply, a)
  {
  }

  lemma ServedByPage(s: Shape, percpu: bool, v: Pools, w: Pools, c: nat, supply: seq<Grant>, rest: seq<Grant>, a: nat)
    requires s.size > 0 && rest == if percpu then Rest(supply) else supply
    requires percpu ==> CpuEmpty(v, c) && v.partial == [] && Fails(supply, 0)
    requires a == NULL <==> v.partial == [] && Fails(rest, 0)
    requires if a == NULL then w == v else FromPage(s, v, w, rest, a)
    ensures AllocServed(s, percpu, v, w, c, supply, a)
  {
    hide FromPage, Fails;
  }

  lemma OthersSame(v: Pools, c: nat)
    ensures OthersKept(v, v, c)
    ensures forall w: Pools :: w.batches == v.batches && w.lists == v.lists ==> OthersKept(v, w, c)
  {
  }

  lemma RefilledNone(s: Shape, v: Pools, c: nat, supply: seq<Grant>)
    requires s.size > 0
    ensures Refilled(s, v, c, 0, supply) == (v, supply)
  {
  }

  lemma RefillStops(s: Shape, v: Pools, c: nat, n: nat, supply: seq<Grant>)
    requires s.size > 0 && n > 0 && v.partial == [] && Fails(supply, 0)
    ensures Refilled(s, v, c, n, supply) == (v, Spent(v, supply)) && Spent(v, supply) == Rest(supply)
  {
  }

  lemma RefillGoesOn(s: Shape, v: Pools, w: Pools, c: nat, n: nat, supply: seq<Grant>, obj: nat)
    requires s.size > 0 && n > 0 && c < |v.batches| && FromPage(s, v, w, supply, obj)
    ensures c < |w.batches| && Refilled(s, BatchIn(w, c, obj), c, n - 1, Spent(v, supply)) == Refilled(s, v, c, n, supply)
  {
    PoppedBatches(s, v, supply);
    hide Provided, Spent;
  }

  lemma PoppedBatches(s: Shape, v: Pools, supply: seq<Grant>)
    requires s.size > 0
    ensures Provided(s, v, supply).batches == v.batches
  {
  }

  lemma SoundBatches(s: Shape, v: Pools)
    requires Sound(s, v)
    ensures BatchesOk(v.batches) && |v.lists| == MAX_CPUS
  {
  }

  lemma PartialHead(s: Shape, pm: PageMemory, v: Pools)
    requires s.size > 0 && Listed(pm, s, v)
    ensures PageAddr(v.partial, 0) == NULL <==> v.partial == []
  {
    if v.partial != [] { ListHead(pm, s, v.partial, 0); }
  }

  lemma PoppedAfter(s: Shape, v: Pools)
    requires Sound(s, v) && v.partial != []
    ensures v.partial[0].free != []
    ensures var w := Popped(v);
      w.batches == v.batches && w.lists == v.lists && w.out == v.out + multiset{v.partial[0].free[0]} && w.bases == v.bases
  {
    PoppedSound(s, v);
    PoppedPlaces(v);
  }

  lemma HeadOfList(s: Shape, v: Pools, mem: Memory, c: nat)
    requires Sound(s, v) && Stored(mem, v) && c < MAX_CPUS
    ensures |v.lists| == MAX_CPUS && (Head(v.lists[c]) == NULL <==> v.lists[c] == [])
    ensures v.lists[c] != [] ==> Head(v.lists[c]) in mem && mem[Head(v.lists[c])].next == Head(v.lists[c][1..])
    ensures v.lists[c] != [] ==> Stored(mem, ListOut(v, c))
  {
    if v.lists[c] != [] { ListOutStored(s, v, mem, c); }
  }

  lemma AddedIs(s: Shape, v: Pools, addr: nat, base: nat)
    requires s.size > 0
    ensures var w := Added(s, v, addr, base); w.out == v.out && w.batches == v.batches && w.lists == v.lists && w.partial != []
  {
  }

  lemma OutOnce(s: Shape, v: Pools, a: nat)
    requires Sound(s, v) && a in v.out
    ensures v.out[a] == 1
  {
    HeldIsNowhereElse(s, v, a);
  }

  lemma HeldNotNull(mem: Memory, v: Pools, a: nat)
    requires Stored(mem, v)
    ensures a in v.out ==> a != NULL && a in mem && mem[a].magic == SLUB_MAGIC
  {
    if a in v.out { assert a in Bag(v.batches) + v.out; }
  }

  // ---- the page of an object ----

  ghost predicate OnPage(s: Shape, v: Pools, a: nat, full: bool, i: nat)
    requires s.size > 0
  {
    if full then i < |v.full| && a in PageSlots(s, v.full[i]) else i < |v.partial| && a in PageSlots(s, v.partial[i])
  }

  lemma OwnerOf(s: Shape, v: Pools, a: nat) returns (full: bool, i: nat)
    requires Sound(s, v) && a in v.out
    ensures s.size > 0 && OnPage(s, v, a, full, i)
    ensures full ==> InRegion(s, v.full[i].base, a)
    ensures !full ==> InRegion(s, v.partial[i].base, a)
  {
    hide Bag, PagesSound, PageSlots;
    assert a in Everywhere(v);
    assert a in AllSlots(s, v);
    full := a in Bag(SlotLists(s, v.full));
    if full { i := SlotRegion(s, v.full, a); } else { i := SlotRegion(s, v.partial, a); }
  }

  /** The page found by address range is the page the object belongs to. */
  lemma RegionOwner(s: Shape, v: Pools, a: nat, full: bool, at: nat, full': bool, i: nat)
    requires Sound(s, v) && OnPage(s, v, a, full, at)
    requires if full then InRegion(s, v.full[at].base, a) else InRegion(s, v.partial[at].base, a)
    requires if full' then i < |v.full| && InRegion(s, v.full[i].base, a)
             else i < |v.partial| && InRegion(s, v.partial[i].base, a)
    ensures full == full' && at == i
  {
    hide PageSlots, InRegion;
    ListsDistinct(s, v);
    var p := if full then v.full[at] else v.partial[at];
    var q := if full' then v.full[i] else v.partial[i];
    OneBase(s, v, p, q, a);
  }

  lemma OneBase(s: Shape, v: Pools, p: Page, q: Page, a: nat)
    requires Sound(s, v) && InRegion(s, p.base, a) && InRegion(s, q.base, a)
    requires p in v.partial || p in v.full
    requires q in v.partial || q in v.full
    ensures p.addr == q.addr
  {
    hide PageSlots, InRegion, Bag, AllSlots, Everywhere;
    assert PageOk(s, v.bases, p) && PageOk(s, v.bases, q);
    if p.addr != q.addr { OneRegion(s, p.base, q.base, a); }
  }

  lemma ActivePositive(s: Shape, v: Pools, a: nat)
    requires Sound(s, v) && a in v.out
    ensures InUse(s, v.partial) + InUse(s, v.full) > 0
  {
    ActiveIsHeld(s, v);
    assert v.out == (v.out - multiset{a}) + multiset{a};
  }

  /** The object went back to the page it belongs to, and a page without objects in use was given up. */
  ghost predicate Returned(s: Shape, v: Pools, w: Pools, a: nat)
    requires s.size > 0
  {
    && a in v.out
    && exists full: bool, i: nat :: OnPage(s, v, a, full, i) && w == AfterReturn(s, v, a, full, i)
  }

  ghost function AfterReturn(s: Shape, v: Pools, a: nat, full: bool, i: nat): Pools
    requires s.size > 0 && a in v.out && OnPage(s, v, a, full, i)
  {
    var w := if full then PushedFull(v, i, a) else PushedPartial(v, i, a);
    var k := if full then 0 else i;
    if Used(s, w.partial[k]) == 0 && |v.partial| + |v.full| > 1 then Dropped(w, k) else w
  }

  lemma AfterReturnIs(s: Shape, v: Pools, a: nat, full: bool, i: nat)
    requires s.size > 0 && a in v.out && OnPage(s, v, a, full, i)
    ensures var w := if full then PushedFull(v, i, a) else PushedPartial(v, i, a);
      var k := if full then 0 else i;
      && w.batches == v.batches && w.lists == v.lists && k < |w.partial| && Dropped(w, k).batches == w.batches
      && Dropped(w, k).lists == w.lists && |w.partial| + |w.full| == |v.partial| + |v.full|
      && AfterReturn(s, v, a, full, i)
         == if Used(s, w.partial[k]) == 0 && |v.partial| + |v.full| > 1 then Dropped(w, k) else w
  {
    hide PageSlots, Used;
  }

  lemma ReturnedKeeps(s: Shape, v: Pools, w: Pools, a: nat)
    requires s.size > 0 && Returned(s, v, w, a)
    ensures w.out == v.out - multiset{a} && w.batches == v.batches && w.lists == v.lists
  {
    hide PageSlots, Used;
  }

  lemma NewPageIs(s: Shape, addr: nat, base: nat)
    requires s.size > 0
    ensures NewPage(s, addr, base) == Page(addr, base, Backwards(Slots(base, s.size, Objects(s))))
  {
    BackwardsSame(Slots(base, s.size, Objects(s)));
  }

  lemma FullIsFull(s: Shape, v: Pools, i: nat)
    requires Sound(s, v) && i < |v.full|
    ensures v.full[i].free == []
  {
  }

  /** Where the page that was full stands before it is linked into the partial list. */
  lemma PushedFullPlace(pm: PageMemory, s: Shape, v: Pools, i: nat, a: nat)
    requires s.size > 0 && i < |v.full| && Distinct(v.full) && PageList(pm, s, v.full)
    ensures var q := v.full[i].(free := [a]);
      var t := v.full[i := q];
      && Without(t, i) == Without(v.full, i)
      && (i > 0 ==> v.full[i - 1].addr in pm && v.full[i - 1].addr != q.addr && t[i - 1] == v.full[i - 1])
      && PageAddr(t, i + 1) == PageAddr(v.full, i + 1)
      && |Without(v.full, i)| == |v.full| - 1
  {
    if i > 0 { ListHead(pm, s, v.full, i - 1); }
  }

  /** The writes to the structs: the page is unlinked and then linked to the partial list. */
  lemma PushFullIs(pm: PageMemory, s: Shape, v: Pools, i: nat, a: nat)
    requires s.size > 0 && i < |v.full| && Distinct(v.full) && PageList(pm, s, v.full)
    ensures var q := v.full[i].(free := [a]);
      var t, m := v.full[i := q], pm[q.addr := StructOf(s, q, PageAddr(v.full, i + 1))];
      && (i > 0 ==> t[i - 1].addr in m && v.full[i - 1].addr in pm)
      && q.addr in Unlinked(m, t, i)
      && Unlinked(m, t, i)[q.addr := Unlinked(m, t, i)[q.addr].(next := PageAddr(v.partial, 0))]
         == PushFullStructs(pm, s, v, i, a)
  {
    PushedFullPlace(pm, s, v, i, a);
  }

  lemma SetHead(pages: seq<Page>, i: nat, q: Page)
    requires i < |pages| && q.addr == pages[i].addr
    ensures PageAddr(pages[i := q], 0) == PageAddr(pages, 0)
  {
  }

  lemma NextOf(s: Shape, p: Page, next: nat)
    requires s.size > 0
    ensures StructOf(s, p, next).next == next
  {
  }

  lemma PoppedPlaces(v: Pools)
    requires v.partial != [] && v.partial[0].free != []
    ensures var p, w := v.partial[0], Popped(v);
      var q := p.(free := p.free[1..]);
      && PageAddr(w.partial, 0) == (if q.free == [] then PageAddr(v.partial, 1) else p.addr)
      && PageAddr(w.full, 0) == (if q.free == [] then p.addr else PageAddr(v.full, 0))
      && |w.partial| + |w.full| == |v.partial| + |v.full|
      && w.batches == v.batches && w.lists == v.lists && w.out == v.out + multiset{p.free[0]} && w.bases == v.bases
      && PageAddr(Without(v.partial[0 := q], 0), 0) == PageAddr(v.partial, 1)
  {
  }

  lemma SetDistinct(pages: seq<Page>, i: nat, q: Page)
    requires Distinct(pages) && i < |pages| && q.addr == pages[i].addr
    ensures Distinct(pages[i := q]) && PageAddr(pages[i := q], 0) == PageAddr(pages, 0)
  {
  }

  lemma {:induction false} EmptyBag(lists: seq<seq<nat>>)
    requires forall i :: 0 <= i < |lists| ==> lists[i] == []
    ensures Bag(lists) == multiset{}
  {
    if lists != [] { EmptyBag(lists[1..]); }
  }

  lemma EmptyStored(mem: Memory, v: Pools)
    requires v.partial == [] && Bag(v.batches) == multiset{} && v.out == multiset{}
    requires forall c :: 0 <= c < |v.lists| ==> v.lists[c] == []
    ensures Stored(mem, v)
  {
  }

  // ---- callers never share bytes ----

  lemma {:induction false} SlotsSpaced(base: nat, size: nat, n: nat, a: nat, b: nat)
    requires size > 0 && a in Slots(base, size, n) && b in Slots(base, size, n) && a < b
    ensures a + size <= b
  {
    if n > 0 {
      var t, last := Slots(base, size, n - 1), base + Times(n - 1, size);
      SlotsBetween(base, size, n - 1);
      assert Slots(base, size, n) == t + [last];
      hide Slots, Times;
      if a in t && b in t { SlotsSpaced(base, size, n - 1, a, b); }
    }
  }

  lemma SlotEnd(s: Shape, p: Page, a: nat)
    requires ShapeOk(s) && a in PageSlots(s, p)
    ensures p.base <= a && a + s.size <= p.base + Span(s)
  {
    SlotsBetween(p.base, s.size, Objects(s));
    ObjectsFit(s);
  }

  /** Two objects that callers hold do not overlap. */
  lemma HeldApart(s: Shape, v: Pools, a: nat, b: nat)
    requires Sound(s, v) && a in v.out && b in v.out && a < b
    ensures a + s.size <= b
  {
    hide Bag, PageSlots, Objects, AllSlots, Everywhere;
    var full, i := OwnerOf(s, v, a);
    var full', j := OwnerOf(s, v, b);
    var p := if full then v.full[i] else v.partial[i];
    var q := if full' then v.full[j] else v.partial[j];
    assert PageOk(s, v.bases, p) && PageOk(s, v.bases, q);
    SlotEnd(s, p, a);
    SlotEnd(s, q, b);
    if p.addr == q.addr {
      PageSlotsIs(s, p);
      PageSlotsIs(s, q);
      SlotsSpaced(p.base, s.size, Objects(s), a, b);
    } else {
      assert RegionsApart(s, v.bases[p.addr], v.bases[q.addr]);
    }
  }
}
