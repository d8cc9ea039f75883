/** The ways an object of a SLUB cache changes hands, and what all of them keep. */
module SlubMoves {
  import opened Dyadic
  import opened ObjectPages
  import opened Wrappers

  const MAX_CPUS: nat := 32
  const BATCH_SIZE: nat := 16

  /** Partial and full pages, what each CPU holds in its batch and on its list, and what callers hold. */
  datatype Pools = Pools(bases: Bases, partial: seq<Page>, full: seq<Page>,
                         batches: seq<seq<nat>>, lists: seq<seq<nat>>, out: multiset<nat>)

  /** Every place an object can be. */
  function Everywhere(v: Pools): multiset<nat> {
    Bag(FreeLists(v.partial)) + Bag(FreeLists(v.full)) + Bag(v.batches) + Bag(v.lists) + v.out
  }

  function AllSlots(s: Shape, v: Pools): multiset<nat>
    requires s.size > 0
  {
    Bag(SlotLists(s, v.partial)) + Bag(SlotLists(s, v.full))
  }

  function AllAddrs(v: Pools): multiset<nat> {
    Bag(AddrLists(v.partial)) + Bag(AddrLists(v.full))
  }

  ghost predicate SomeFree(pages: seq<Page>) {
    forall i {:trigger pages[i]} :: 0 <= i < |pages| ==> pages[i].free != []
  }

  ghost predicate NoneFree(pages: seq<Page>) {
    forall i {:trigger pages[i]} :: 0 <= i < |pages| ==> pages[i].free == []
  }

  ghost predicate BatchesOk(batches: seq<seq<nat>>) {
    |batches| == MAX_CPUS && forall c :: 0 <= c < |batches| ==> |batches[c]| <= BATCH_SIZE
  }

  ghost predicate PagesSound(s: Shape, v: Pools)
    requires s.size > 0
  {
    && BasesApart(s, v.bases) && Single(AllAddrs(v))
    && PagesOk(s, v.bases, v.partial) && SomeFree(v.partial)
    && PagesOk(s, v.bases, v.full) && NoneFree(v.full)
  }

  /** Each object slot of each page is in exactly one place. */
  ghost predicate Sound(s: Shape, v: Pools) {
    && ShapeOk(s) && PagesSound(s, v)
    && BatchesOk(v.batches) && |v.lists| == MAX_CPUS
    && AllSlots(s, v) == Everywhere(v)
  }

  /** Nothing is in two places, or twice in one. */
  lemma EverythingOnce(s: Shape, v: Pools)
    requires Sound(s, v)
    ensures Single(Everywhere(v))
  {
    hide Bag, PageOk, BasesApart;
    var pages := v.partial + v.full;
    assert SlotLists(s, pages) == SlotLists(s, v.partial) + SlotLists(s, v.full);
    assert AddrLists(pages) == AddrLists(v.partial) + AddrLists(v.full);
    BagConcat(SlotLists(s, v.partial), SlotLists(s, v.full));
    BagConcat(AddrLists(v.partial), AddrLists(v.full));
    SlotsSingle(s, v.bases, pages);
  }

  // ---- a page object is handed out ----

  function Popped(v: Pools): Pools
    requires v.partial != [] && v.partial[0].free != []
  {
    var p := v.partial[0];
    var q := p.(free := p.free[1..]);
    var w := v.(out := v.out + multiset{p.free[0]});
    if q.free == [] then w.(partial := v.partial[1..], full := [q] + v.full)
    else w.(partial := [q] + v.partial[1..])
  }

  /** The bags do not care on which of the two lists a page is. */
  lemma ListsExchange(s: Shape, x: seq<Page>, q: Page, y: seq<Page>)
    requires s.size > 0
    ensures Bag(FreeLists([q] + x)) + Bag(FreeLists(y)) == Bag(FreeLists(x)) + Bag(FreeLists([q] + y))
    ensures Bag(SlotLists(s, [q] + x)) + Bag(SlotLists(s, y)) == Bag(SlotLists(s, x)) + Bag(SlotLists(s, [q] + y))
    ensures Bag(AddrLists([q] + x)) + Bag(AddrLists(y)) == Bag(AddrLists(x)) + Bag(AddrLists([q] + y))
    ensures InUse(s, [q] + x) + InUse(s, y) == InUse(s, x) + InUse(s, [q] + y)
  {
    hide Bag, PageSlots, InUse, Used;
    ConsFacts(s, q, x);
    ConsFacts(s, q, y);
  }

  /** Taking the first free object of the first partial page, before the page changes lists. */
  lemma HeadTaken(s: Shape, bases: Bases, list: seq<Page>)
    requires s.size > 0 && list != [] && list[0].free != [] && PageOk(s, bases, list[0])
    ensures var p := list[0];
      var q := p.(free := p.free[1..]);
      var t := [q] + list[1..];
      && PageOk(s, bases, q) && Bag(FreeLists(list)) == Bag(FreeLists(t)) + multiset{p.free[0]}
      && Bag(SlotLists(s, t)) == Bag(SlotLists(s, list)) && Bag(AddrLists(t)) == Bag(AddrLists(list))
      && InUse(s, t) == InUse(s, list) + 1
  {
    hide Bag, PageSlots, InUse, Objects;
    var p, rest := list[0], list[1..];
    var q := p.(free := p.free[1..]);
    assert list == [p] + rest && p.free == [p.free[0]] + q.free;
    assert multiset(p.free) == multiset{p.free[0]} + multiset(q.free);
    PageFree(s, bases, p);
    SamePage(s, bases, p, q);
    ConsFacts(s, p, rest);
    ConsFacts(s, q, rest);
  }

  lemma PoppedPages(s: Shape, v: Pools)
    requires s.size > 0 && PagesSound(s, v) && v.partial != []
    ensures v.partial[0].free != [] && PagesSound(s, Popped(v)) && AllSlots(s, Popped(v)) == AllSlots(s, v)
  {
    hide Bag, BasesApart, PageSlots, PageOk;
    var p := v.partial[0];
    var q, rest := p.(free := p.free[1..]), v.partial[1..];
    HeadTaken(s, v.bases, v.partial);
    ListsExchange(s, rest, q, v.full);
    assert forall i {:trigger rest[i]} :: 0 <= i < |rest| ==> rest[i] == v.partial[i + 1];
    assert AllAddrs(Popped(v)) == AllAddrs(v);
  }

  lemma PoppedBags(s: Shape, v: Pools)
    requires s.size > 0 && v.partial != [] && v.partial[0].free != [] && PageOk(s, v.bases, v.partial[0])
    ensures Everywhere(Popped(v)) == Everywhere(v)
  {
    hide Bag, PageSlots, InUse, FreeLists, SlotLists, AddrLists, PageOk;
    var p := v.partial[0];
    var q, rest, w := p.(free := p.free[1..]), v.partial[1..], Popped(v);
    HeadTaken(s, v.bases, v.partial);
    ListsExchange(s, rest, q, v.full);
    var x, y, x', y' := Bag(FreeLists(v.partial)), Bag(FreeLists(v.full)), Bag(FreeLists(w.partial)), Bag(FreeLists(w.full));
    assert x' + y' == Bag(FreeLists([q] + rest)) + y;
    assert x == Bag(FreeLists([q] + rest)) + multiset{p.free[0]};
    SumsAgree(x, y, x', y', Bag(v.batches), Bag(v.lists), v.out, p.free[0]);
  }

  lemma PoppedUse(s: Shape, v: Pools)
    requires s.size > 0 && v.partial != [] && v.partial[0].free != [] && PageOk(s, v.bases, v.partial[0])
    ensures InUse(s, Popped(v).partial) + InUse(s, Popped(v).full) == InUse(s, v.partial) + InUse(s, v.full) + 1
  {
    hide Bag, PageSlots, InUse, PageOk;
    var p := v.partial[0];
    var q, rest := p.(free := p.free[1..]), v.partial[1..];
    HeadTaken(s, v.bases, v.partial);
    ListsExchange(s, rest, q, v.full);
  }

  lemma PoppedSound(s: Shape, v: Pools)
    requires Sound(s, v) && v.partial != []
    ensures v.partial[0].free != [] && Sound(s, Popped(v))
    ensures InUse(s, Popped(v).partial) + InUse(s, Popped(v).full) == InUse(s, v.partial) + InUse(s, v.full) + 1
  {
    PoppedPages(s, v);
    assert PageOk(s, v.bases, v.partial[0]);
    hide Bag, PagesSound, PageSlots, InUse, PageOk, AllSlots, Everywhere;
    PoppedBags(s, v);
    PoppedUse(s, v);
  }

  lemma SumsAgree(x: multiset<nat>, y: multiset<nat>, x': multiset<nat>, y': multiset<nat>,
                  b: multiset<nat>, l: multiset<nat>, out: multiset<nat>, a: nat)
    requires x + y == x' + y' + multiset{a}
    ensures x' + y' + b + l + (out + multiset{a}) == x + y + b + l + out
  {
  }

  // ---- an object goes back to its page ----

  /** Page i of the full list gets its first free object and becomes partial. */
  function PushedFull(v: Pools, i: nat, a: nat): Pools
    requires i < |v.full| && a in v.out
  {
    v.(full := Without(v.full, i), partial := [v.full[i].(free := [a])] + v.partial, out := v.out - multiset{a})
  }

  function PushedPartial(v: Pools, i: nat, a: nat): Pools
    requires i < |v.partial| && a in v.out
  {
    var p := v.partial[i];
    v.(partial := v.partial[i := p.(free := [a] + p.free)], out := v.out - multiset{a})
  }

  lemma PushedFullPages(s: Shape, v: Pools, i: nat, a: nat)
    requires s.size > 0 && PagesSound(s, v) && i < |v.full| && a in v.out && a in PageSlots(s, v.full[i])
    ensures PagesSound(s, PushedFull(v, i, a)) && AllSlots(s, PushedFull(v, i, a)) == AllSlots(s, v)
  {
    hide Bag, BasesApart, PageSlots, PageOk, PagesOk, FreeLists, SlotLists, AddrLists, InUse;
    var p := v.full[i];
    var q := p.(free := [a]);
    PushedFullOk(s, v, i, a);
    AtFacts(s, v.full, i, p);
    ConsFacts(s, q, v.partial);
    assert AllAddrs(PushedFull(v, i, a)) == AllAddrs(v);
  }

  lemma PushedFullOk(s: Shape, v: Pools, i: nat, a: nat)
    requires s.size > 0 && PagesOk(s, v.bases, v.full) && PagesOk(s, v.bases, v.partial)
    requires i < |v.full| && a in PageSlots(s, v.full[i])
    ensures var q := v.full[i].(free := [a]);
      && PagesOk(s, v.bases, Without(v.full, i)) && PagesOk(s, v.bases, [q] + v.partial)
      && PageSlots(s, q) == PageSlots(s, v.full[i])
  {
    hide PageSlots, PageOk;
    var p, rest := v.full[i], Without(v.full, i);
    var q := p.(free := [a]);
    var t := [q] + v.partial;
    assert PageOk(s, v.bases, p);
    assert multiset(q.free) <= multiset(PageSlots(s, p)) by { assert multiset(q.free) == multiset{a}; }
    SamePage(s, v.bases, p, q);
    assert forall j {:trigger rest[j]} :: 0 <= j < |rest| ==> rest[j] == v.full[if j < i then j else j + 1];
    assert forall j {:trigger t[j]} :: 0 <= j < |t| ==> t[j] == if j == 0 then q else v.partial[j - 1];
  }

  lemma PushedFullBags(s: Shape, v: Pools, i: nat, a: nat)
    requires s.size > 0 && i < |v.full| && v.full[i].free == [] && a in v.out
    ensures Everywhere(PushedFull(v, i, a)) == Everywhere(v)
    ensures var w := PushedFull(v, i, a);
      InUse(s, w.partial) + InUse(s, w.full) == InUse(s, v.partial) + InUse(s, v.full) - 1
  {
    hide Bag, PageSlots, InUse, FreeLists, SlotLists, AddrLists;
    var p := v.full[i];
    var q, w := p.(free := [a]), PushedFull(v, i, a);
    AtFacts(s, v.full, i, p);
    ConsFacts(s, q, v.partial);
    assert multiset(q.free) == multiset{a} && multiset(p.free) == multiset{};
    var x, y, x', y' := Bag(FreeLists(v.partial)), Bag(FreeLists(v.full)), Bag(FreeLists(w.partial)), Bag(FreeLists(w.full));
    assert x' == x + multiset{a} && y' == y;
    assert v.out == w.out + multiset{a};
    SumsAgree(x', y', x, y, Bag(v.batches), Bag(v.lists), w.out, a);
  }

  lemma PushedFullSound(s: Shape, v: Pools, i: nat, a: nat)
    requires Sound(s, v) && i < |v.full| && a in v.out && a in PageSlots(s, v.full[i])
    ensures Sound(s, PushedFull(v, i, a))
    ensures var w := PushedFull(v, i, a);
      InUse(s, w.partial) + InUse(s, w.full) == InUse(s, v.partial) + InUse(s, v.full) - 1
  {
    PushedFullPages(s, v, i, a);
    assert v.full[i].free == [];
    hide Bag, PagesSound, PageSlots, InUse, AllSlots, Everywhere;
    PushedFullBags(s, v, i, a);
  }

  lemma PushedPartialPages(s: Shape, v: Pools, i: nat, a: nat)
    requires s.size > 0 && PagesSound(s, v) && i < |v.partial| && a in v.out
    requires multiset{a} + multiset(v.partial[i].free) <= multiset(PageSlots(s, v.partial[i]))
    ensures PagesSound(s, PushedPartial(v, i, a)) && AllSlots(s, PushedPartial(v, i, a)) == AllSlots(s, v)
  {
    hide Bag, BasesApart, PageSlots, PageOk;
    var p := v.partial[i];
    var q := p.(free := [a] + p.free);
    assert PageOk(s, v.bases, p);
    assert multiset(q.free) == multiset{a} + multiset(p.free);
    SamePage(s, v.bases, p, q);
    AtFacts(s, v.partial, i, q);
    assert AllAddrs(PushedPartial(v, i, a)) == AllAddrs(v);
  }

  lemma PushedPartialSound(s: Shape, v: Pools, i: nat, a: nat)
    requires Sound(s, v) && i < |v.partial| && a in v.out && a in PageSlots(s, v.partial[i])
    ensures Sound(s, PushedPartial(v, i, a))
    ensures var w := PushedPartial(v, i, a);
      InUse(s, w.partial) + InUse(s, w.full) == InUse(s, v.partial) + InUse(s, v.full) - 1
  {
    hide Bag, PagesSound, PageSlots, InUse;
    NotFreeYet(s, v, i, a);
    PushedPartialPages(s, v, i, a);
    var p := v.partial[i];
    var q := p.(free := [a] + p.free);
    AtFacts(s, v.partial, i, q);
    assert multiset(q.free) == multiset{a} + multiset(p.free);
    assert Everywhere(PushedPartial(v, i, a)) == Everywhere(v);
  }

  /** What a caller holds is not on the free list of its page. */
  lemma NotFreeYet(s: Shape, v: Pools, i: nat, a: nat)
    requires Sound(s, v) && i < |v.partial| && a in v.out && a in PageSlots(s, v.partial[i])
    ensures a !in v.partial[i].free
    ensures multiset{a} + multiset(v.partial[i].free) <= multiset(PageSlots(s, v.partial[i]))
  {
    hide Bag, BasesApart, PageSlots, PagesSound;
    EverythingOnce(s, v);
    assert Everywhere(v)[a] >= Bag(FreeLists(v.partial))[a] + v.out[a];
    if a in v.partial[i].free { InBag(FreeLists(v.partial), i, a); }
    assert a in multiset(PageSlots(s, v.partial[i]));
    FreeIsPart(s, v, i);
  }

  lemma FreeIsPart(s: Shape, v: Pools, i: nat)
    requires Sound(s, v) && i < |v.partial|
    ensures multiset(v.partial[i].free) <= multiset(PageSlots(s, v.partial[i]))
  {
    assert PageOk(s, v.bases, v.partial[i]);
  }

  // ---- pages come and go ----

  function Added(s: Shape, v: Pools, addr: nat, base: nat): Pools
    requires s.size > 0
  {
    v.(bases := v.bases[addr := base], partial := [NewPage(s, addr, base)] + v.partial)
  }

  lemma AddedPages(s: Shape, v: Pools, addr: nat, base: nat)
    requires ShapeOk(s) && PagesSound(s, v) && Unused(s, v.bases, addr, base)
    ensures PagesSound(s, Added(s, v, addr, base))
  {
    hide Bag, PageSlots, Objects, BasesApart, PageOk;
    var p, w := NewPage(s, addr, base), Added(s, v, addr, base);
    NewPageFacts(s, addr, base);
    ConsFacts(s, p, v.partial);
    NotYetThere(s, v, addr);
    PagesStay(s, v.bases, w.bases, v.partial);
    PagesStay(s, v.bases, w.bases, v.full);
    NewPageOk(s, w.bases, p);
    BasesGrow(s, v.bases, addr, base);
    assert AllAddrs(w) == AllAddrs(v) + multiset{addr};
  }

  lemma AddedSound(s: Shape, v: Pools, addr: nat, base: nat)
    requires Sound(s, v) && Unused(s, v.bases, addr, base)
    ensures Sound(s, Added(s, v, addr, base)) && NewPage(s, addr, base).free != []
    ensures InUse(s, [NewPage(s, addr, base)] + v.partial) == InUse(s, v.partial)
  {
    hide Bag, PageSlots, InUse, Objects, PagesSound, NewPage;
    var p, w := NewPage(s, addr, base), Added(s, v, addr, base);
    NewPageFacts(s, addr, base);
    AddedPages(s, v, addr, base);
    ConsFacts(s, p, v.partial);
    assert Everywhere(w) == Everywhere(v) + multiset(p.free);
    assert AllSlots(s, w) == AllSlots(s, v) + multiset(p.free);
  }

  lemma NotYetThere(s: Shape, v: Pools, addr: nat)
    requires s.size > 0 && PagesSound(s, v) && addr !in v.bases
    ensures AllAddrs(v)[addr] == 0
  {
    AddrsKnown(s, v.bases, v.partial, addr);
    AddrsKnown(s, v.bases, v.full, addr);
  }

  function Dropped(v: Pools, i: nat): Pools
    requires i < |v.partial|
  {
    v.(bases := v.bases - {v.partial[i].addr}, partial := Without(v.partial, i))
  }

  /** Only a page without objects in use may go: its free list is all of it. */
  lemma DroppedSound(s: Shape, v: Pools, i: nat)
    requires Sound(s, v) && i < |v.partial| && Used(s, v.partial[i]) == 0
    ensures Sound(s, Dropped(v, i))
    ensures InUse(s, Without(v.partial, i)) == InUse(s, v.partial)
  {
    hide Bag, PageSlots, InUse, Objects, PagesSound;
    var p, w := v.partial[i], Dropped(v, i);
    AtFacts(s, v.partial, i, p);
    SlotsInRegion(s, p);
    FreeIsPart(s, v, i);
    SameSize(multiset(p.free), multiset(PageSlots(s, p)));
    DroppedPages(s, v, i);
    CancelBag(AllSlots(s, w), Everywhere(w), multiset(p.free), AllSlots(s, v), Everywhere(v));
  }

  lemma CancelBag(x: multiset<nat>, y: multiset<nat>, c: multiset<nat>, x': multiset<nat>, y': multiset<nat>)
    requires x' == x + c && y' == y + c && x' == y'
    ensures x == y
  {
    assert x == x' - c && y == y' - c;
  }

  lemma DroppedPages(s: Shape, v: Pools, i: nat)
    requires s.size > 0 && PagesSound(s, v) && i < |v.partial|
    ensures PagesSound(s, Dropped(v, i))
  {
    hide Bag, PageSlots, Objects, PageOk;
    var p, w := v.partial[i], Dropped(v, i);
    AtFacts(s, v.partial, i, p);
    var rest := w.partial;
    assert forall j {:trigger rest[j]} :: 0 <= j < |rest| ==> rest[j] == v.partial[if j < i then j else j + 1];
    assert AllAddrs(v) == AllAddrs(w) + multiset{p.addr};
    SingleLess(AllAddrs(v), AllAddrs(w), p.addr);
    NotInBag(rest, p.addr);
    NotInBag(v.full, p.addr);
    PagesStay(s, v.bases, w.bases, rest);
    PagesStay(s, v.bases, w.bases, v.full);
  }

  // ---- objects held by a CPU ----

  function BatchIn(v: Pools, c: nat, a: nat): Pools
    requires c < |v.batches|
  {
    v.(batches := v.batches[c := v.batches[c] + [a]], out := v.out - multiset{a})
  }

  function BatchOut(v: Pools, c: nat): Pools
    requires c < |v.batches| && v.batches[c] != []
  {
    var b := v.batches[c];
    v.(batches := v.batches[c := b[..|b| - 1]], out := v.out + multiset{b[|b| - 1]})
  }

  function ListIn(v: Pools, c: nat, a: nat): Pools
    requires c < |v.lists|
  {
    v.(lists := v.lists[c := [a] + v.lists[c]], out := v.out - multiset{a})
  }

  function ListOut(v: Pools, c: nat): Pools
    requires c < |v.lists| && v.lists[c] != []
  {
    v.(lists := v.lists[c := v.lists[c][1..]], out := v.out + multiset{v.lists[c][0]})
  }

  lemma BatchInSound(s: Shape, v: Pools, c: nat, a: nat)
    requires Sound(s, v) && c < MAX_CPUS && |v.batches[c]| < BATCH_SIZE && a in v.out
    ensures Sound(s, BatchIn(v, c, a))
  {
    hide Bag, PagesSound;
    BagAt(v.batches, c, v.batches[c] + [a]);
    assert multiset(v.batches[c] + [a]) == multiset(v.batches[c]) + multiset{a};
    assert Everywhere(BatchIn(v, c, a)) == Everywhere(v);
    assert PagesSound(s, BatchIn(v, c, a)) by { SamePages(s, v, BatchIn(v, c, a)); }
  }

  lemma BatchOutSound(s: Shape, v: Pools, c: nat)
    requires Sound(s, v) && c < MAX_CPUS && v.batches[c] != []
    ensures Sound(s, BatchOut(v, c))
  {
    hide Bag, PagesSound;
    var b := v.batches[c];
    var x, y := b[..|b| - 1], b[|b| - 1];
    BagAt(v.batches, c, x);
    assert b == x + [y];
    assert multiset(b) == multiset(x) + multiset{y};
    assert Everywhere(BatchOut(v, c)) == Everywhere(v);
    assert PagesSound(s, BatchOut(v, c)) by { SamePages(s, v, BatchOut(v, c)); }
  }

  lemma ListInSound(s: Shape, v: Pools, c: nat, a: nat)
    requires Sound(s, v) && c < MAX_CPUS && a in v.out
    ensures Sound(s, ListIn(v, c, a))
  {
    hide Bag, PagesSound;
    BagAt(v.lists, c, [a] + v.lists[c]);
    assert multiset([a] + v.lists[c]) == multiset(v.lists[c]) + multiset{a};
    assert Everywhere(ListIn(v, c, a)) == Everywhere(v);
    assert PagesSound(s, ListIn(v, c, a)) by { SamePages(s, v, ListIn(v, c, a)); }
  }

  lemma ListOutSound(s: Shape, v: Pools, c: nat)
    requires Sound(s, v) && c < MAX_CPUS && v.lists[c] != []
    ensures Sound(s, ListOut(v, c))
  {
    hide Bag, PagesSound;
    var l := v.lists[c];
    BagAt(v.lists, c, l[1..]);
    assert l == [l[0]] + l[1..];
    assert multiset(l) == multiset(l[1..]) + multiset{l[0]};
    assert Everywhere(ListOut(v, c)) == Everywhere(v);
    assert PagesSound(s, ListOut(v, c)) by { SamePages(s, v, ListOut(v, c)); }
  }

  lemma SamePages(s: Shape, v: Pools, w: Pools)
    requires s.size > 0 && PagesSound(s, v) && w.bases == v.bases && w.partial == v.partial && w.full == v.full
    ensures PagesSound(s, w)
  {
  }

  // ---- counting ----

  /** Objects in use, by the pages' own counts, are those that callers and CPUs hold. */
  lemma ActiveIsHeld(s: Shape, v: Pools)
    requires Sound(s, v)
    ensures InUse(s, v.partial) + InUse(s, v.full) == |v.out| + |Bag(v.batches)| + |Bag(v.lists)|
  {
    hide Bag, PagesOk, BasesApart, InUse;
    InUseIs(s, v.partial);
    InUseIs(s, v.full);
    SlotCount(s, v.partial);
    SlotCount(s, v.full);
    assert |AllSlots(s, v)| == |Bag(SlotLists(s, v.partial))| + |Bag(SlotLists(s, v.full))|;
    var f, g := Bag(FreeLists(v.partial)), Bag(FreeLists(v.full));
    assert |Everywhere(v)| == |f| + |g| + |Bag(v.batches)| + |Bag(v.lists)| + |v.out|;
  }

  lemma {:induction false} SlotCount(s: Shape, pages: seq<Page>)
    requires ShapeOk(s)
    ensures |Bag(SlotLists(s, pages))| == Times(Objects(s), |pages|)
  {
    hide Objects, PageSlots;
    if pages == [] {
      assert SlotLists(s, pages) == [];
    } else {
      hide Times;
      SlotsInRegion(s, pages[0]);
      SlotCount(s, pages[1..]);
      assert SlotLists(s, pages)[1..] == SlotLists(s, pages[1..]);
      TimesSwap(Objects(s), |pages|);
      TimesSwap(Objects(s), |pages| - 1);
      TimesNext(|pages| - 1, Objects(s));
    }
  }
}
