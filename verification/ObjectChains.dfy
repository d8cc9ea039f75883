/** Singly linked lists of objects in memory, and the linking of the objects of a new page, as the SLUB and
    the slab allocator use them. */
module ObjectChains {
  import opened Dyadic
  import opened ObjectPages

  datatype Object = Object(next: nat, magic: nat)

  type ObjectMemory = map<nat, Object>

  function AddrAt(l: seq<nat>, k: int): nat {
    if 0 <= k < |l| then l[k] else NULL
  }

  function Head(l: seq<nat>): nat {
    AddrAt(l, 0)
  }

  ghost predicate ChainAt(mem: ObjectMemory, l: seq<nat>, magic: nat, k: nat)
    requires k < |l|
  {
    l[k] != NULL && l[k] in mem && mem[l[k]] == Object(AddrAt(l, k + 1), magic)
  }

  /** A singly linked list of objects. */
  ghost predicate Chained(mem: ObjectMemory, l: seq<nat>, magic: nat) {
    forall k {:trigger ChainAt(mem, l, magic, k)} :: 0 <= k < |l| ==> ChainAt(mem, l, magic, k)
  }

  ghost predicate AllChained(mem: ObjectMemory, lists: seq<seq<nat>>, magic: nat) {
    forall i {:trigger lists[i]} :: 0 <= i < |lists| ==> Chained(mem, lists[i], magic)
  }

  lemma ChainElsewhere(mem: ObjectMemory, m: ObjectMemory, l: seq<nat>, magic: nat)
    requires Chained(mem, l, magic)
    requires forall a :: a in l && a in mem ==> a in m && m[a] == mem[a]
    ensures Chained(m, l, magic)
  {
    forall k: nat | k < |l| ensures ChainAt(m, l, magic, k) { assert ChainAt(mem, l, magic, k); }
  }

  lemma AllElsewhere(mem: ObjectMemory, m: ObjectMemory, lists: seq<seq<nat>>, magic: nat)
    requires AllChained(mem, lists, magic)
    requires forall a :: a in Bag(lists) && a in mem ==> a in m && m[a] == mem[a]
    ensures AllChained(m, lists, magic)
  {
    hide Bag, Chained;
    forall i | 0 <= i < |lists| ensures Chained(m, lists[i], magic) {
      forall a | a in lists[i] ensures a in Bag(lists) { InBag(lists, i, a); }
      ChainElsewhere(mem, m, lists[i], magic);
    }
  }

  lemma ChainTail(mem: ObjectMemory, l: seq<nat>, magic: nat)
    requires Chained(mem, l, magic) && l != []
    ensures Chained(mem, l[1..], magic)
    ensures l[0] != NULL && l[0] in mem && mem[l[0]] == Object(Head(l[1..]), magic)
  {
    var t := l[1..];
    assert ChainAt(mem, l, magic, 0);
    forall k: nat | k < |t| ensures ChainAt(mem, t, magic, k) {
      assert ChainAt(mem, l, magic, k + 1);
      assert AddrAt(t, k + 1) == AddrAt(l, k + 2);
    }
  }

  lemma ChainCons(mem: ObjectMemory, a: nat, l: seq<nat>, magic: nat)
    requires Chained(mem, l, magic) && a !in l && a != NULL
    ensures Chained(mem[a := Object(Head(l), magic)], [a] + l, magic)
  {
    var m, t := mem[a := Object(Head(l), magic)], [a] + l;
    forall k: nat | k < |t| ensures ChainAt(m, t, magic, k) {
      assert AddrAt(t, k + 1) == AddrAt(l, k);
      if k > 0 { assert ChainAt(mem, l, magic, k - 1) && t[k] == l[k - 1]; }
    }
  }

  lemma ChainOne(mem: ObjectMemory, a: nat, magic: nat)
    requires a in mem && a != NULL && mem[a] == Object(NULL, magic)
    ensures Chained(mem, [a], magic)
  {
    assert ChainAt(mem, [a], magic, 0);
  }

  lemma NotOnLists(lists: seq<seq<nat>>, a: nat)
    requires a !in Bag(lists)
    ensures forall j :: 0 <= j < |lists| ==> a !in lists[j]
  {
    forall j | 0 <= j < |lists| ensures a !in lists[j] { if a in lists[j] { InBag(lists, j, a); } }
  }

  /** The objects of a new page after n of them were linked: each links to the one before. */
  ghost predicate Linked(m: ObjectMemory, base: nat, size: nat, n: nat, magic: nat) {
    Chained(m, Backwards(Slots(base, size, n)), magic)
  }

  lemma NotBackwards(l: seq<nat>, a: nat)
    requires a !in l
    ensures a !in Backwards(l)
  {
    BackwardsSame(l);
    assert a !in multiset(Backwards(l));
  }

  /** The loop body writes behind all objects that are linked so far. */
  lemma LinkOne(m: ObjectMemory, base: nat, size: nat, n: nat, magic: nat)
    requires size > 0 && base != NULL && Linked(m, base, size, n, magic)
    ensures var a := base + Times(n, size);
      Linked(m[a := Object(Head(Backwards(Slots(base, size, n))), magic)], base, size, n + 1, magic)
      && Head(Backwards(Slots(base, size, n + 1))) == a
  {
    hide Times;
    var l, a := Slots(base, size, n), base + Times(n, size);
    SlotsBetween(base, size, n);
    assert a !in l;
    assert Slots(base, size, n + 1) == l + [a];
    assert (l + [a])[..|l + [a]| - 1] == l;
    assert Backwards(l + [a]) == [a] + Backwards(l);
    NotBackwards(l, a);
    ChainCons(m, a, Backwards(l), magic);
  }

  /** ObjectMemory outside the region of a page is as it was. */
  ghost predicate OnlyIn(s: Shape, base: nat, m: ObjectMemory, mem: ObjectMemory) {
    mem.Keys <= m.Keys && forall a :: a in mem && !InRegion(s, base, a) ==> m[a] == mem[a]
  }

  lemma StartOfPage(m: ObjectMemory, s: Shape, base: nat, magic: nat)
    ensures Linked(m, base, s.size, 0, magic) && OnlyIn(s, base, m, m) && Times(0, s.size) == 0
    ensures Head(Backwards(Slots(base, s.size, 0))) == NULL
  {
  }

  lemma SlotInPage(s: Shape, i: nat)
    requires s.size > 0 && i < Objects(s)
    ensures Times(i, s.size) < Span(s)
  {
    ObjectsFit(s);
    hide Objects, Span;
    var o := Objects(s);
    MulMonotone(i + 1, o, s.size);
    TimesNext(i, s.size);
    assert Times(i + 1, s.size) <= Times(o, s.size);
  }

  lemma WriteInside(s: Shape, base: nat, m: ObjectMemory, mem: ObjectMemory, a: nat, x: Object)
    requires OnlyIn(s, base, m, mem) && InRegion(s, base, a)
    ensures OnlyIn(s, base, m[a := x], mem)
  {
  }
}
