/** What the buddy allocator guarantees, over every run from the initial carving. */
module BuddyTheorems {
  import opened Dyadic
  import opened BuddyZone

  // ---- each move keeps the tiling ----

  lemma RemovedFacts<T>(s: seq<T>, x: T)
    requires x in s && NoDuplicates(s)
    ensures NoDuplicates(Removed(s, x))
    ensures forall y :: y in Removed(s, x) <==> y in s && y != x
  {
    var i := IndexOf(s, x);
    assert s == s[..i] + [x] + s[i + 1..];
  }

  ghost predicate Covers(z: Zone, p: nat, k: nat, x: nat) {
    IsBlock(z, p, k) && p <= x < p + Pow2(k)
  }

  lemma TheBlock(z: Zone, x: nat) returns (p: nat, k: nat)
    requires Tiling(z) && x < z.pages
    ensures Covers(z, p, k, x)
  {
    assert Covered(z, x);
    p, k :| IsBlock(z, p, k) && p <= x < p + Pow2(k);
  }

  lemma TakeKeeps(z: Zone, m: nat)
    requires Inv(z) && m <= MAX_ORDER && z.lists[m] != []
    ensures Inv(Take(z, m))
  {
    var h, w := z.lists[m][0], Take(z, m);
    assert IsFree(z, h, m) && z.lists[m] == [h] + z.lists[m][1..];
    assert forall p: nat, k: nat :: IsFree(w, p, k) <==> IsFree(z, p, k) && !(p == h && k == m);
    forall k: nat | IsFree(w, h, k) ensures false {
      assert IsBlock(z, h, k) && IsBlock(z, h, m);
    }
    assert forall p: nat, k: nat :: IsBlock(w, p, k) <==> IsBlock(z, p, k);
    forall x: nat | x < w.pages ensures Covered(w, x) {
      var p, k := TheBlock(z, x);
      assert IsBlock(w, p, k);
    }
  }

  lemma PushFacts<T>(s: seq<T>, x: T)
    requires x !in s && NoDuplicates(s)
    ensures NoDuplicates([x] + s)
    ensures forall y :: y in [x] + s <==> y in s || y == x
  {
  }

  /** Which blocks a halving leaves: the lower half stays in hand, the upper half becomes free. */
  lemma HalveBlocks(z: Zone, p: nat, k: nat)
    requires Inv(z) && IsLive(z, p, k + 1)
    ensures InHand(z, p) && Shape(Halve(z, p))
    ensures var w := Halve(z, p);
            && (forall r: nat, l: nat :: IsFree(w, r, l) <==> IsFree(z, r, l) || (r == p + Pow2(k) && l == k))
            && (forall r: nat, l: nat :: IsLive(w, r, l) <==> (IsLive(z, r, l) && r != p) || (r == p && l == k))
  {
    assert IsBlock(z, p, k + 1) && Placed(z, p, k + 1);
    var w, q := Halve(z, p), p + Pow2(k);
    InsideNoneStarts(z, p, k + 1, q);
    hide Inv, Tiling, Pow2, Shape, IsBlock;
    HalveMembers(z, p, k);
    HalveShape(z, p, k, q);
  }

  lemma HalveMembers(z: Zone, p: nat, k: nat)
    requires IsLive(z, p, k + 1) && k < MAX_ORDER
    ensures var w := Halve(z, p);
      && (forall r: nat, l: nat :: IsFree(w, r, l) <==> IsFree(z, r, l) || (r == p + Pow2(k) && l == k))
      && (forall r: nat, l: nat :: IsLive(w, r, l) <==> (IsLive(z, r, l) && r != p) || (r == p && l == k))
  {
  }

  lemma HalveShape(z: Zone, p: nat, k: nat, q: nat)
    requires Shape(z) && IsLive(z, p, k + 1) && k < MAX_ORDER && q == p + Pow2(k) && forall l: nat :: !IsBlock(z, q, l)
    ensures Shape(Halve(z, p))
  {
    var w := Halve(z, p);
    HalveMembers(z, p, k);
    assert !IsBlock(z, q, k) && (q in z.live ==> IsBlock(z, q, z.live[q]));
    PushFacts(z.lists[k], q);
    hide Pow2, NoDuplicates, IsBlock;
    forall r: nat, l: nat | IsFree(w, r, l) ensures r !in w.live {
      assert IsFree(z, r, l) || r == q;
    }
  }

  lemma InsideNoneStarts(z: Zone, p: nat, k: nat, q: nat)
    requires Tiling(z) && IsBlock(z, p, k) && p < q < p + Pow2(k)
    ensures Shape(z) && forall l: nat :: !IsBlock(z, q, l)
  {
    hide IsBlock, Shape;
  }

  lemma HalveTiling(z: Zone, p: nat, k: nat, w: Zone)
    requires Tiling(z) && IsBlock(z, p, k + 1) && Shape(w) && w.pages == z.pages
    requires forall r: nat, l: nat ::
      IsBlock(w, r, l) <==> (IsBlock(z, r, l) && r != p) || (l == k && (r == p || r == p + Pow2(k)))
    ensures Tiling(w)
  {
    hide IsBlock, Shape;
    assert Placed(z, p, k + 1);
    HalfFacts(p, k);
    var q := p + Pow2(k);
    assert Pow2(k + 1) == 2 * Pow2(k);
    forall x: nat | x < w.pages ensures Covered(w, x) {
      var r, l := TheBlock(z, x);
      if r == p {
        assert IsBlock(z, p, l) && l == k + 1;
        assert IsBlock(w, p, k) && IsBlock(w, q, k);
      } else {
        assert IsBlock(w, r, l);
      }
    }
    forall r: nat, l: nat | IsBlock(w, r, l) ensures Placed(w, r, l) {
      if IsBlock(z, r, l) { assert Placed(z, r, l); }
    }
    forall r: nat, l: nat, s: nat, j: nat | IsBlock(w, r, l) && IsBlock(w, s, j) && r <= s
      ensures (r == s && l == j) || r + Pow2(l) <= s
    {
      HalvesApart(z, p, k, r, l, s, j);
    }
  }

  lemma HalvesApart(z: Zone, p: nat, k: nat, r: nat, l: nat, s: nat, j: nat)
    requires Disjoint(z) && IsBlock(z, p, k + 1) && r <= s
    requires (IsBlock(z, r, l) && r != p) || (l == k && (r == p || r == p + Pow2(k)))
    requires (IsBlock(z, s, j) && s != p) || (j == k && (s == p || s == p + Pow2(k)))
    ensures (r == s && l == j) || r + Pow2(l) <= s
  {
    var d := Pow2(k + 1);
    assert d == 2 * Pow2(k);
    hide IsBlock, Pow2;
    assert IsBlock(z, r, l) && r < p ==> r + Pow2(l) <= p;
    assert IsBlock(z, r, l) && p < r ==> p + d <= r;
    assert IsBlock(z, s, j) && p < s ==> p + d <= s;
  }

  lemma HalveKeeps(z: Zone, p: nat, k: nat)
    requires Inv(z) && IsLive(z, p, k + 1)
    ensures InHand(z, p) && Inv(Halve(z, p))
  {
    HalveBlocks(z, p, k);
    var w, q := Halve(z, p), p + Pow2(k);
    assert IsBlock(z, p, k + 1) && Placed(z, p, k + 1);
    HalveTiling(z, p, k, w);
    HalfFacts(p, k);
    assert !IsFree(w, p, k);
    forall r: nat, l: nat | IsFree(w, r, l) && l < MAX_ORDER ensures !IsFree(w, Buddy(r, l), l) {
      assert Placed(w, r, l) by { assert IsBlock(w, r, l); }
      BuddyFacts(r, l);
    }
  }

  lemma AbsorbTiling(z: Zone, p: nat, k: nat, w: Zone)
    requires Tiling(z) && IsBlock(z, p, k) && IsBlock(z, Buddy(p, k), k) && k < MAX_ORDER
    requires Shape(w) && w.pages == z.pages
    requires forall r: nat, l: nat :: IsBlock(w, r, l) <==>
      (IsBlock(z, r, l) && r != p && r != Buddy(p, k)) || (r == Min(p, Buddy(p, k)) && l == k + 1)
    ensures Tiling(w)
  {
    hide IsBlock, Shape;
    assert Placed(z, p, k) && Placed(z, Buddy(p, k), k);
    BuddyFacts(p, k);
    var q, d := Buddy(p, k), Pow2(k);
    var m := Min(p, q);
    assert Pow2(k + 1) == 2 * d;
    forall x: nat | x < w.pages ensures Covered(w, x) {
      var r, l := TheBlock(z, x);
      if r == p || r == q {
        assert l == k;
        assert IsBlock(w, m, k + 1);
      } else {
        assert IsBlock(w, r, l);
      }
    }
    forall r: nat, l: nat | IsBlock(w, r, l) ensures Placed(w, r, l) {
      if IsBlock(z, r, l) { assert Placed(z, r, l); }
    }
    forall r: nat, l: nat, s: nat, j: nat | IsBlock(w, r, l) && IsBlock(w, s, j) && r <= s
      ensures (r == s && l == j) || r + Pow2(l) <= s
    {
      if r == m && l == k + 1 {
        if s != m { assert IsBlock(z, s, j) && IsBlock(z, m, k) && IsBlock(z, m + d, k); }
      } else if s == m && j == k + 1 {
        assert IsBlock(z, r, l) && IsBlock(z, m, k);
      } else {
        assert IsBlock(z, r, l) && IsBlock(z, s, j);
      }
    }
  }

  /** Which blocks a merge leaves: the two halves are replaced by the whole, in hand. */
  lemma AbsorbBlocks(z: Zone, p: nat, k: nat)
    requires Inv(z) && IsLive(z, p, k) && k < MAX_ORDER && Buddy(p, k) in z.lists[k]
    ensures InHand(z, p) && Shape(Absorb(z, p))
    ensures var w, q, m := Absorb(z, p), Buddy(p, k), Min(p, Buddy(p, k));
            && (forall r: nat, l: nat :: IsFree(w, r, l) <==> IsFree(z, r, l) && !(r == q && l == k))
            && (forall r: nat, l: nat :: IsLive(w, r, l) <==> (IsLive(z, r, l) && r != p) || (r == m && l == k + 1))
  {
    var w, q := Absorb(z, p), Buddy(p, k);
    assert IsBlock(z, p, k) && Placed(z, p, k);
    assert IsFree(z, q, k) && IsBlock(z, q, k);
    BuddyFacts(p, k);
    RemovedFacts(z.lists[k], q);
    assert forall r: nat, l: nat :: l != k ==> (IsFree(w, r, l) <==> IsFree(z, r, l));
    forall l: nat | IsFree(w, Min(p, q), l) ensures false {
      assert IsBlock(z, Min(p, q), l);
    }
    forall r: nat, l: nat | IsFree(w, r, l) ensures r !in w.live {
      assert IsFree(z, r, l);
    }
  }

  lemma AbsorbKeeps(z: Zone, p: nat, k: nat)
    requires Inv(z) && IsLive(z, p, k) && k < MAX_ORDER && Buddy(p, k) in z.lists[k]
    ensures InHand(z, p) && Inv(Absorb(z, p))
  {
    AbsorbBlocks(z, p, k);
    assert IsBlock(z, p, k) && Placed(z, p, k);
    BuddyFacts(p, k);
    var w, q, m := Absorb(z, p), Buddy(p, k), Min(p, Buddy(p, k));
    assert IsFree(z, q, k) && IsBlock(z, q, k) && Placed(z, q, k);
    forall r: nat, l: nat ensures IsBlock(w, r, l) <==>
      (IsBlock(z, r, l) && r != p && r != q) || (r == m && l == k + 1)
    {
      assert IsBlock(z, r, l) && (r == p || r == q) ==> l == k;
      assert q !in z.live;
      assert IsFree(z, r, l) ==> r != p;
    }
    AbsorbTiling(z, p, k, w);
  }

  lemma ReleaseKeeps(z: Zone, p: nat, k: nat)
    requires Inv(z) && IsLive(z, p, k)
    requires k < MAX_ORDER ==> Buddy(p, k) !in z.lists[k]
    ensures InHand(z, p) && Inv(Release(z, p))
  {
    assert IsBlock(z, p, k) && Placed(z, p, k);
    BuddyFacts(p, k);
    var w := Release(z, p);
    assert !IsFree(z, p, k);
    PushFacts(z.lists[k], p);
    assert forall r: nat, l: nat :: IsFree(w, r, l) <==> IsFree(z, r, l) || (r == p && l == k);
    assert forall r: nat, l: nat :: IsBlock(w, r, l) <==> IsBlock(z, r, l);
    forall x: nat | x < w.pages ensures Covered(w, x) {
      var r, l := TheBlock(z, x);
      assert IsBlock(w, r, l);
    }
    forall r: nat, l: nat | IsFree(w, r, l) && l < MAX_ORDER ensures !IsFree(w, Buddy(r, l), l) {
      assert IsBlock(z, r, l) && Placed(z, r, l);
      BuddyFacts(r, l);
    }
  }

  // ---- alloc_order and free_order ----

  /** Splitting down to order o only changes the order of the block in hand. */
  lemma {:induction false} SplitKeeps(z: Zone, p: nat, o: nat)
    requires Inv(z) && InHand(z, p) && o <= z.live[p]
    ensures var w := SplitTo(z, p, o);
            Inv(w) && w.pages == z.pages && w.live == z.live[p := o]
    decreases z.live[p]
  {
    if z.live[p] > o {
      HalveKeeps(z, p, z.live[p] - 1);
      SplitKeeps(Halve(z, p), p, o);
    } else {
      assert z.live[p := o] == z.live;
    }
  }

  /** A run of pages [p, p + 2^o) in which every page lies in a free block. */
  ghost predicate AllFree(z: Zone, p: nat, o: nat) {
    && Placed(z, p, o)
    && forall x: nat :: p <= x < p + Pow2(o) ==> PageFree(z, x)
  }

  ghost predicate PageFree(z: Zone, x: nat) {
    exists p: nat, k: nat :: IsFree(z, p, k) && p <= x < p + Pow2(k)
  }

  /** A split puts one block on the list of each order below, the upper half left over at that order. */
  lemma {:induction false} SplitLists(z: Zone, p: nat, o: nat)
    requires InHand(z, p) && o <= z.live[p]
    ensures Halved(z.lists, SplitTo(z, p, o).lists, p, o, z.live[p])
    decreases z.live[p]
  {
    hide Pow2, Halved;
    if z.live[p] > o {
      SplitLists(Halve(z, p), p, o);
      HalvedMore(z, p, o, SplitTo(z, p, o).lists);
    } else {
      NothingHalved(z.lists, p, o, z.live[p]);
    }
  }

  ghost predicate Halved(s: FreeLists, t: FreeLists, p: nat, o: nat, m: nat) {
    forall j {:trigger t[j]} :: 0 <= j <= MAX_ORDER ==> t[j] == if o <= j < m then [p + Pow2(j)] + s[j] else s[j]
  }

  lemma NothingHalved(s: FreeLists, p: nat, o: nat, m: nat)
    requires m <= o
    ensures Halved(s, s, p, o, m)
  {
  }

  lemma HalvedMore(z: Zone, p: nat, o: nat, t: FreeLists)
    requires InHand(z, p) && o < z.live[p] && Halved(Halve(z, p).lists, t, p, o, z.live[p] - 1)
    ensures Halved(z.lists, t, p, o, z.live[p])
  {
    hide Pow2;
    var k := z.live[p] - 1;
    assert t[k] == Halve(z, p).lists[k];
  }

  /** The block that is handed out starts a block of the smallest order that has one, the head of its list, and
      is its lower end. What is split off is one block for each order in between; no other list changes. If
      nothing is handed out, no order has a block. */
  lemma SmallestIsSplit(z: Zone, o: nat) returns (m: nat)
    requires o <= MAX_ORDER
    ensures var (w, r) := AllocOrder(z, o);
      if r.None? then w == z && forall j :: o <= j <= MAX_ORDER ==> z.lists[j] == []
      else SmallestTaken(z, w, o, m, r.value)
  {
    hide Pow2, Halved;
    m := FirstFit(z, o);
    if m <= MAX_ORDER {
      var p := z.lists[m][0];
      SplitLists(Take(z, m), p, o);
      TakenIs(z, AllocOrder(z, o).0, o, m);
    }
  }

  ghost predicate SmallestTaken(z: Zone, w: Zone, o: nat, m: nat, p: nat) {
    && o <= m <= MAX_ORDER && z.lists[m] != [] && p == z.lists[m][0]
    && (forall j :: o <= j < m ==> z.lists[j] == [])
    && forall j {:trigger w.lists[j]} :: 0 <= j <= MAX_ORDER ==>
         w.lists[j] == if j == m then z.lists[m][1..] else if o <= j < m then [p + Pow2(j)] else z.lists[j]
  }

  lemma TakenIs(z: Zone, w: Zone, o: nat, m: nat)
    requires m <= MAX_ORDER && z.lists[m] != [] && o <= m && forall j :: o <= j < m ==> z.lists[j] == []
    requires Halved(Take(z, m).lists, w.lists, z.lists[m][0], o, m)
    ensures SmallestTaken(z, w, o, m, z.lists[m][0])
  {
    hide Pow2;
  }

  /** A successful allocation hands out an aligned run of pages that were all free, as a block of
      exactly the order asked for; every other handed-out block is untouched. A failing one changes
      nothing. */
  lemma AllocKeeps(z: Zone, o: nat)
    requires Inv(z)
    ensures var (w, r) := AllocOrder(z, o);
            && Inv(w) && w.pages == z.pages
            && (r.None? ==> w == z)
            && (r.Some? ==>
                  && o <= MAX_ORDER && AllFree(z, r.value, o)
                  && r.value !in z.live && w.live == z.live[r.value := o])
  {
    if o <= MAX_ORDER {
      var m := FirstFit(z, o);
      if m <= MAX_ORDER {
        var p := z.lists[m][0];
        assert IsFree(z, p, m) && IsBlock(z, p, m) && Placed(z, p, m);
        TakeKeeps(z, m);
        SplitKeeps(Take(z, m), p, o);
        Coarser(p, o, m);
        Pow2Monotone(o, m);
        assert z.live[p := m][p := o] == z.live[p := o];
      }
    }
  }

  /** Freeing a block takes exactly that block out of the handed-out ones. */
  lemma {:induction false} FreeKeeps(z: Zone, p: nat)
    requires Inv(z) && p in z.live
    ensures InHand(z, p)
    ensures var w := FreeBlock(z, p);
            Inv(w) && w.pages == z.pages && w.live == z.live - {p}
    decreases MAX_ORDER - z.live[p]
  {
    var k := z.live[p];
    assert IsBlock(z, p, k) && Placed(z, p, k);
    var q := Buddy(p, k);
    if k < MAX_ORDER && q in z.lists[k] {
      AbsorbKeeps(z, p, k);
      assert IsFree(z, q, k);
      var m := Min(p, q);
      FreeKeeps(Absorb(z, p), m);
      assert m != p ==> m !in z.live;
      assert (z.live - {p})[m := k + 1] - {m} == z.live - {p};
    } else {
      ReleaseKeeps(z, p, k);
    }
  }

  // ---- completeness ----

  lemma NotBothHalvesFree(z: Zone, p: nat, k: nat)
    requires Inv(z) && k < MAX_ORDER && Aligned(p, k + 1)
    ensures !(IsFree(z, p, k) && IsFree(z, p + Pow2(k), k))
  {
    HalfFacts(p, k);
  }

  /** If every page of an aligned run is free, then one free block contains the whole run. */
  lemma {:induction false} FreeRunInOneBlock(z: Zone, p: nat, o: nat) returns (q: nat, l: nat)
    requires Inv(z) && AllFree(z, p, o)
    ensures IsFree(z, q, l) && o <= l && q <= p && p + Pow2(o) <= q + Pow2(l)
    decreases o
  {
    if o == 0 {
      assert PageFree(z, p);
      q, l :| IsFree(z, q, l) && q <= p < q + Pow2(l);
    } else {
      var d := Pow2(o - 1);
      assert d > 0 && Pow2(o) == 2 * d && Aligned(p, o) && o <= MAX_ORDER && Tiling(z);
      HalvesAllFree(z, p, o - 1);
      hide Inv, IsFree, AllFree, Pow2, Aligned;
      q, l := FreeRunInOneBlock(z, p, o - 1);
      var r, j := FreeRunInOneBlock(z, p + d, o - 1);
      OneIsWhole(z, p, o - 1, q, l, r, j);
      if l < o { q, l := r, j; }
      WholeInside(z, p, o, q, l);
    }
  }

  /** The two halves of an aligned run are not free as two blocks. */
  lemma OneIsWhole(z: Zone, p: nat, k: nat, q: nat, l: nat, r: nat, j: nat)
    requires Inv(z) && k < MAX_ORDER && Aligned(p, k + 1)
    requires IsFree(z, q, l) && k <= l && q <= p && p + Pow2(k) <= q + Pow2(l)
    requires IsFree(z, r, j) && k <= j && r <= p + Pow2(k) && p + Pow2(k) + Pow2(k) <= r + Pow2(j)
    ensures l > k || j > k
  {
    hide Inv, IsFree, Pow2, Aligned;
    NotBothHalvesFree(z, p, k);
    if l == k { assert q == p; }
    if j == k { assert r == p + Pow2(k); }
  }

  lemma HalvesAllFree(z: Zone, p: nat, k: nat)
    requires AllFree(z, p, k + 1)
    ensures AllFree(z, p, k) && AllFree(z, p + Pow2(k), k)
  {
    HalfFacts(p, k);
    assert Pow2(k + 1) == 2 * Pow2(k);
  }

  lemma WholeInside(z: Zone, p: nat, o: nat, q: nat, l: nat)
    requires Tiling(z) && IsFree(z, q, l) && Aligned(p, o) && 0 < o <= l
    requires (q <= p < q + Pow2(l)) || (q <= p + Pow2(o - 1) < q + Pow2(l))
    ensures q <= p && p + Pow2(o) <= q + Pow2(l)
  {
    assert IsBlock(z, q, l) && Placed(z, q, l);
    Nest(p, o, q, l);
  }

  /** Completeness: alloc_order fails exactly when the order is too large or no aligned run of 2^o
      pages in the zone is entirely free. */
  lemma AllocFailsOnlyWhenItMust(z: Zone, o: nat)
    requires Inv(z)
    ensures AllocOrder(z, o).1.None? <==> o > MAX_ORDER || forall p: nat :: !AllFree(z, p, o)
  {
    if o <= MAX_ORDER {
      var (w, r) := AllocOrder(z, o);
      AllocKeeps(z, o);
      if r.None? {
        forall p: nat | AllFree(z, p, o) ensures false {
          var q, l := FreeRunInOneBlock(z, p, o);
        }
      } else {
        assert AllFree(z, r.value, o);
      }
    }
  }

  // ---- the free blocks are determined by the handed-out ones ----

  lemma PageIsFreeUnlessLive(z: Zone, x: nat)
    requires Tiling(z) && x < z.pages
    ensures PageFree(z, x) <==> !exists p: nat, k: nat :: IsLive(z, p, k) && p <= x < p + Pow2(k)
  {
    var p, k := TheBlock(z, x);
    if PageFree(z, x) {
      var q: nat, l: nat :| IsFree(z, q, l) && q <= x < q + Pow2(l);
      forall r: nat, j: nat | IsLive(z, r, j) && r <= x < r + Pow2(j) ensures false {
        assert IsBlock(z, q, l) && IsBlock(z, r, j);
      }
    }
  }

  lemma FreeBlocksAgree(z: Zone, w: Zone, p: nat, k: nat)
    requires Inv(z) && Inv(w) && z.pages == w.pages && z.live == w.live
    requires IsFree(z, p, k)
    ensures IsFree(w, p, k)
  {
    FreeRun(z, p, k);
    SameFreePages(z, w, p, k);
    var q, l := FreeRunInOneBlock(w, p, k);
    FreeRun(w, q, l);
    SameFreePages(w, z, q, l);
    var r, j := FreeRunInOneBlock(z, q, l);
    assert IsBlock(z, p, k) && IsBlock(z, r, j);
    assert p + Pow2(k) > p;
    assert r == p && j == k;
  }

  lemma FreeRun(z: Zone, p: nat, k: nat)
    requires Tiling(z) && IsFree(z, p, k)
    ensures AllFree(z, p, k)
  {
    assert IsBlock(z, p, k) && Placed(z, p, k);
  }

  lemma SameFreePages(z: Zone, w: Zone, p: nat, k: nat)
    requires Tiling(z) && Tiling(w) && z.pages == w.pages && z.live == w.live
    requires AllFree(z, p, k)
    ensures AllFree(w, p, k)
  {
    forall x: nat | p <= x < p + Pow2(k) ensures PageFree(w, x) {
      assert PageFree(z, x);
      PageIsFreeUnlessLive(z, x);
      PageIsFreeUnlessLive(w, x);
      assert forall r: nat, l: nat :: IsLive(z, r, l) <==> IsLive(w, r, l);
    }
  }

  /** Canonical form: which blocks are free depends only on which are handed out, never on the
      order in which allocations and frees happened. */
  lemma FreeBlocksDependOnlyOnLive(z: Zone, w: Zone)
    requires Inv(z) && Inv(w) && z.pages == w.pages && z.live == w.live
    ensures forall p: nat, k: nat :: IsFree(z, p, k) <==> IsFree(w, p, k)
  {
    forall p: nat, k: nat ensures IsFree(z, p, k) <==> IsFree(w, p, k) {
      if IsFree(z, p, k) { FreeBlocksAgree(z, w, p, k); }
      if IsFree(w, p, k) { FreeBlocksAgree(w, z, p, k); }
    }
  }

  // ---- the greedy carving ----

  /** A partly carved zone: no free block below the maximal order is as small as what is left. */
  ghost predicate Carving(z: Zone, left: nat, top: nat) {
    && Inv(z) && z.live == map[] && top <= MAX_ORDER
    && Aligned(z.pages, top)
    && (top < MAX_ORDER ==> left < Pow2(top))
    && (forall p: nat, k: nat :: IsFree(z, p, k) && k < MAX_ORDER ==> left < Pow2(k))
  }

  lemma CarveOneKeeps(z: Zone, left: nat, top: nat)
    requires Carving(z, left, top) && left > 0
    ensures var k := LargestOrder(left, 0);
            Carving(CarveOne(z, left), left - Pow2(k), k)
    ensures forall l: nat :: !OnList(z.lists, z.pages, l)
  {
    hide Inv, Pow2;
    Pow2Step(0);
    var k := LargestOrder(left, 0);
    var at := z.pages;
    Pow2Step(k);
    if top < k { Pow2Monotone(top, k); }
    CarveAligned(at, k, top);
    var w := CarveOne(z, left);
    assert z.lists[k] != [] ==> IsFree(z, z.lists[k][0], k);
    CarveStep(z, k, w);
    forall q: nat, l: nat | IsFree(w, q, l) && l < MAX_ORDER ensures left - Pow2(k) < Pow2(l) {
      assert IsFree(z, q, l) || l == k;
    }
    NoneAtTheEnd(z);
  }

  lemma NoneAtTheEnd(z: Zone)
    requires Inv(z)
    ensures forall l: nat :: !OnList(z.lists, z.pages, l)
  {
    forall l: nat ensures !OnList(z.lists, z.pages, l) {
      assert IsBlock(z, z.pages, l) ==> Placed(z, z.pages, l);
    }
  }

  lemma {:induction false} CarveKeeps(z: Zone, left: nat, top: nat)
    requires Carving(z, left, top)
    ensures var w := Carve(z, left);
            Inv(w) && w.pages == z.pages + left && w.live == map[]
    decreases left
  {
    hide Inv, Pow2;
    if left > 0 {
      Pow2Step(0);
      CarveOneKeeps(z, left, top);
      var k := LargestOrder(left, 0);
      CarveKeeps(CarveOne(z, left), left - Pow2(k), k);
    }
  }

  lemma CarveAligned(at: nat, k: nat, top: nat)
    requires k <= top && Aligned(at, top)
    ensures Aligned(at, k) && Aligned(at + Pow2(k), k)
  {
    Coarser(at, k, top);
    MultipleOf(1, Pow2(k));
    SumOfMultiples(at, Pow2(k), Pow2(k));
  }

  lemma CarveStep(z: Zone, k: nat, w: Zone)
    requires Inv(z) && z.live == map[] && k <= MAX_ORDER && Aligned(z.pages, k)
    requires k < MAX_ORDER ==> z.lists[k] == []
    requires w == z.(pages := z.pages + Pow2(k), lists := z.lists[k := [z.pages] + z.lists[k]])
    ensures Inv(w)
    ensures forall q: nat, l: nat :: IsFree(w, q, l) <==> IsFree(z, q, l) || (q == z.pages && l == k)
  {
    hide Pow2;
    var at := z.pages;
    assert forall l: nat :: IsBlock(z, at, l) ==> !Placed(z, at, l);
    assert !IsBlock(z, at, k);
    PushFacts(z.lists[k], at);
    assert forall q: nat, l: nat :: IsFree(w, q, l) <==> IsFree(z, q, l) || (q == at && l == k);
    assert forall q: nat, l: nat :: IsBlock(w, q, l) <==> IsBlock(z, q, l) || (q == at && l == k);
    forall q: nat, l: nat | IsBlock(z, q, l) ensures q + Pow2(l) <= at {
      assert Placed(z, q, l);
    }
    forall x: nat | x < w.pages ensures Covered(w, x) {
      if x < at {
        var q, l := TheBlock(z, x);
        assert IsBlock(w, q, l);
      } else {
        assert IsBlock(w, at, k);
      }
    }
    BuddyFacts(at, k);
  }

  lemma InitialInv(pages: nat)
    ensures var z := Initial(pages);
            Inv(z) && z.pages == pages && z.live == map[]
  {
    EmptyCarving(pages);
    CarveKeeps(Empty(), pages, MAX_ORDER);
  }

  lemma EmptyCarving(left: nat)
    ensures Carving(Empty(), left, MAX_ORDER)
  {
    assert forall p: nat, k: nat :: !IsBlock(Empty(), p, k);
  }

  // ---- whole runs ----

  datatype Call = AllocCall(order: nat) | FreeCall(page: nat)

  /** One call of a client: an allocation of any order, or the free of a block it holds. */
  function Step(z: Zone, c: Call): Zone {
    match c
    case AllocCall(o) => AllocOrder(z, o).0
    case FreeCall(p) => if InHand(z, p) then FreeBlock(z, p) else z
  }

  function Run(pages: nat, calls: seq<Call>): Zone {
    if calls == [] then Initial(pages) else Step(Run(pages, calls[..|calls| - 1]), calls[|calls| - 1])
  }

  lemma {:induction false} RunKeepsInv(pages: nat, calls: seq<Call>)
    ensures Inv(Run(pages, calls)) && Run(pages, calls).pages == pages
  {
    if calls == [] {
      InitialInv(pages);
    } else {
      var y := Run(pages, calls[..|calls| - 1]);
      RunKeepsInv(pages, calls[..|calls| - 1]);
      match calls[|calls| - 1]
      case AllocCall(o) => AllocKeeps(y, o);
      case FreeCall(p) => if InHand(y, p) { FreeKeeps(y, p); }
    }
  }

  /** Completeness over runs: after any calls, alloc_order fails exactly when it must. */
  lemma AllocationIsComplete(pages: nat, calls: seq<Call>, o: nat)
    ensures var z := Run(pages, calls);
            AllocOrder(z, o).1.None? <==> o > MAX_ORDER || forall p: nat :: !AllFree(z, p, o)
  {
    RunKeepsInv(pages, calls);
    AllocFailsOnlyWhenItMust(Run(pages, calls), o);
  }

  /** Confluence: any two runs that leave the same blocks handed out leave the same blocks free; with
      nothing handed out, those are the blocks of the greedy carving. */
  lemma RunsAreConfluent(pages: nat, calls: seq<Call>, others: seq<Call>)
    requires Run(pages, calls).live == Run(pages, others).live
    ensures forall p: nat, k: nat :: IsFree(Run(pages, calls), p, k) <==> IsFree(Run(pages, others), p, k)
  {
    RunKeepsInv(pages, calls);
    RunKeepsInv(pages, others);
    FreeBlocksDependOnlyOnLive(Run(pages, calls), Run(pages, others));
  }

  lemma FreeingEverythingRestoresTheZone(pages: nat, calls: seq<Call>)
    requires Run(pages, calls).live == map[]
    ensures forall p: nat, k: nat :: IsFree(Run(pages, calls), p, k) <==> IsFree(Initial(pages), p, k)
  {
    InitialInv(pages);
    assert Run(pages, []) == Initial(pages);
    RunsAreConfluent(pages, calls, []);
  }

  // ---- the address find_buddy reads ----

  /** Live-header safety: while a block of order k < MAX_ORDER is being merged, the page of its
      buddy, if it lies in the zone at all, is the first page of a block of the tiling. */
  lemma BuddyPageStartsABlock(z: Zone, p: nat, k: nat) returns (l: nat)
    requires Tiling(z) && IsLive(z, p, k) && k < MAX_ORDER && Buddy(p, k) < z.pages
    ensures l <= k && IsBlock(z, Buddy(p, k), l)
  {
    assert IsBlock(z, p, k) && Placed(z, p, k);
    var q := Buddy(p, k);
    BuddyFacts(p, k);
    var s;
    s, l := TheBlock(z, q);
    assert Placed(z, s, l);
    if l > k {
      Nest(Min(p, q), k + 1, s, l);
    } else {
      Coarser(q, l, k);
      if s < q { NextMultiple(s, q, Pow2(l)); }
    }
  }

  // ---- the tail of a zone whose size is no multiple of a page ----

  lemma BuddyInsideAlignedZone(z: Zone, p: nat, k: nat)
    requires Tiling(z) && IsBlock(z, p, k) && k < MAX_ORDER && Aligned(z.pages, MAX_ORDER)
    ensures Buddy(p, k) < z.pages
  {
    assert Placed(z, p, k);
    BuddyFacts(p, k);
    Coarser(z.pages, k + 1, MAX_ORDER);
    NextMultiple(Min(p, Buddy(p, k)), z.pages, Pow2(k + 1));
  }

  /** The order of the last block of a zone with nothing handed out. */
  lemma {:induction false} OddOrder(n: nat, k: nat) returns (r: nat)
    requires Aligned(n, k) && !Aligned(n, MAX_ORDER) && k < MAX_ORDER
    ensures r < MAX_ORDER && Aligned(n, r) && !Aligned(n, r + 1)
    decreases MAX_ORDER - k
  {
    if Aligned(n, k + 1) { r := OddOrder(n, k + 1); } else { r := k; }
  }

  lemma LastBlock(pages: nat) returns (p: nat, k: nat)
    requires !Aligned(pages, MAX_ORDER)
    ensures k < MAX_ORDER && IsFree(Initial(pages), p, k) && Buddy(p, k) == pages
  {
    hide Inv, Pow2;
    InitialInv(pages);
    var z := Initial(pages);
    Pow2Step(0);
    k := OddOrder(pages, 0);
    LastRun(pages, k);
    p := pages - Pow2(k);
    EverythingFree(z, p, k);
    var q, l := FreeRunInOneBlock(z, p, k);
    LastIsExact(z, q, l, k);
  }

  lemma LastIsExact(z: Zone, q: nat, l: nat, k: nat)
    requires Tiling(z) && IsFree(z, q, l) && k <= l && z.pages <= q + Pow2(l) && !Aligned(z.pages, k + 1)
    ensures l == k && q + Pow2(l) == z.pages
  {
    assert IsBlock(z, q, l) && Placed(z, q, l);
    if l > k { EndIsAligned(q, l, k + 1); }
  }

  lemma EverythingFree(z: Zone, p: nat, k: nat)
    requires Tiling(z) && z.live == map[] && Placed(z, p, k)
    ensures AllFree(z, p, k)
  {
    forall x: nat | p <= x < p + Pow2(k) ensures PageFree(z, x) {
      PageIsFreeUnlessLive(z, x);
    }
  }

  lemma EndIsAligned(q: nat, l: nat, k: nat)
    requires Aligned(q, l) && k <= l
    ensures Aligned(q + Pow2(l), k)
  {
    MultipleOf(1, Pow2(l));
    SumOfMultiples(q, Pow2(l), Pow2(l));
    Coarser(q + Pow2(l), k, l);
  }

  lemma LastRun(pages: nat, k: nat)
    requires Aligned(pages, k) && !Aligned(pages, k + 1)
    ensures Pow2(k) <= pages && Aligned(pages - Pow2(k), k) && Buddy(pages - Pow2(k), k) == pages
  {
    var d, m := Pow2(k), pages / Pow2(k);
    assert pages == m * d;
    EvenIndex(pages, k);
    assert m % 2 == 1;
    MulMonotone(1, m, d);
    OddMultiple(m, d);
  }

  lemma OddMultiple(m: nat, d: nat)
    requires d > 0 && m % 2 == 1
    ensures m * d - d == (m - 1) * d && (m * d - d) % d == 0 && Times(XorOne(Quotient(m * d - d, d)), d) == m * d
  {
    assert m * d - d == (m - 1) * d;
    MultipleOf(m - 1, d);
  }

  lemma EvenIndex(n: nat, k: nat)
    requires Aligned(n, k)
    ensures (n / Pow2(k)) % 2 == 0 ==> Aligned(n, k + 1)
  {
    var d, h := Pow2(k), n / Pow2(k) / 2;
    assert n == (n / d) * d;
    if (n / d) % 2 == 0 {
      assert n == h * (2 * d);
      MultipleOf(h, 2 * d);
    }
  }

  /** The pages at which find_buddy looks while the block at p is freed: the buddy of the block, and the
      buddies of the blocks it is merged into. */
  function LookedAt(z: Zone, p: nat): set<nat>
    requires InHand(z, p)
    decreases MAX_ORDER - z.live[p]
  {
    var k := z.live[p];
    if k == MAX_ORDER then {}
    else if Buddy(p, k) in z.lists[k] then {Buddy(p, k)} + LookedAt(Absorb(z, p), Min(p, Buddy(p, k)))
    else {Buddy(p, k)}
  }

  lemma LookedNext(z: Zone, p: nat, looked: set<nat>, all: set<nat>)
    requires InHand(z, p) && z.live[p] < MAX_ORDER && looked + LookedAt(z, p) == all
    ensures var q, now := Buddy(p, z.live[p]), looked + {Buddy(p, z.live[p])};
      if q in z.lists[z.live[p]] then now + LookedAt(Absorb(z, p), Min(p, q)) == all else now == all
  {
  }

  lemma LookedLast(z: Zone, p: nat, looked: set<nat>, all: set<nat>)
    requires InHand(z, p) && z.live[p] == MAX_ORDER && looked + LookedAt(z, p) == all
    ensures looked == all
  {
  }

  /** In a zone that ends on a block of maximal order, one free looks at pages of the zone only. */
  lemma {:induction false} LooksInside(z: Zone, p: nat)
    requires Inv(z) && InHand(z, p) && Aligned(z.pages, MAX_ORDER)
    ensures forall x :: x in LookedAt(z, p) ==> x < z.pages
    decreases MAX_ORDER - z.live[p]
  {
    hide Tiling, Coalesced, Aligned, Buddy;
    var k := z.live[p];
    if k < MAX_ORDER {
      assert IsBlock(z, p, k);
      BuddyInsideAlignedZone(z, p, k);
      if Buddy(p, k) in z.lists[k] {
        AbsorbKeeps(z, p, k);
        LooksInside(Absorb(z, p), Min(p, Buddy(p, k)));
      }
    }
  }

  /** Allocating blocks of order k often enough hands out any free block of that order. */
  lemma {:induction false} HandedOutInTime(pages: nat, calls: seq<Call>, p: nat, k: nat) returns (more: seq<Call>)
    requires IsFree(Run(pages, calls), p, k)
    ensures IsLive(Run(pages, more), p, k)
    decreases IndexOf(Run(pages, calls).lists[k], p)
  {
    var z := Run(pages, calls);
    more := calls + [AllocCall(k)];
    assert more[..|more| - 1] == calls;
    assert AllocOrder(z, k).0 == Take(z, k);
    if z.lists[k][0] != p { more := HandedOutInTime(pages, more, p, k); }
  }

  /** Whatever was allocated and freed before, no free makes find_buddy look at the page after the last
      whole one. */
  ghost predicate TailSafe(pages: nat) {
    forall calls: seq<Call>, p: nat :: InHand(Run(pages, calls), p) ==> pages !in LookedAt(Run(pages, calls), p)
  }

  /** The page after the last whole one is looked at for a buddy, by a free after some calls, exactly when the
      pages do not end on a block of maximal order; a zone of one page and a bit is such a zone. */
  lemma TailIsNeverRead(pages: nat)
    ensures TailSafe(pages) <==> Aligned(pages, MAX_ORDER)
  {
    hide Inv, Tiling, Run;
    if Aligned(pages, MAX_ORDER) {
      forall calls: seq<Call>, p: nat | InHand(Run(pages, calls), p)
        ensures pages !in LookedAt(Run(pages, calls), p)
      {
        RunKeepsInv(pages, calls);
        LooksInside(Run(pages, calls), p);
      }
    } else {
      var p, k := LastBlock(pages);
      EmptyRun(pages);
      var calls := HandedOutInTime(pages, [], p, k);
      assert InHand(Run(pages, calls), p);
    }
  }

  lemma EmptyRun(pages: nat)
    ensures Run(pages, []) == Initial(pages)
  {
  }
}
