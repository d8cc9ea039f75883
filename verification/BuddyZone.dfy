/** The buddy allocator's zone as a value: its free lists and its handed-out blocks, in pages.
    Every operation is built from four moves (Take, Halve, Absorb, Release); during a split or a
    merge the block in hand is counted among the live ones, so that every intermediate state is
    again a tiling of the zone. */
module BuddyZone {
  import opened Dyadic
  import opened Wrappers

  const MAX_ORDER: nat := 11

  /** One list of pages for each order. */
  type FreeLists = s: seq<seq<nat>> | |s| == MAX_ORDER + 1
    witness [[], [], [], [], [], [], [], [], [], [], [], []]

  /** lists[k] holds the first pages of the free blocks of order k, head first; live maps the first
      page of each block in use to its order. */
  datatype Zone = Zone(pages: nat, lists: FreeLists, live: map<nat, nat>)

  predicate OnList(lists: FreeLists, p: nat, k: nat) {
    k <= MAX_ORDER && p in lists[k]
  }

  predicate IsFree(z: Zone, p: nat, k: nat) {
    OnList(z.lists, p, k)
  }

  predicate IsLive(z: Zone, p: nat, k: nat) {
    p in z.live && z.live[p] == k
  }

  predicate IsBlock(z: Zone, p: nat, k: nat) {
    IsFree(z, p, k) || IsLive(z, p, k)
  }

  // ---- the invariant ----

  ghost predicate NoDuplicates<T>(s: seq<T>) {
    forall i, j :: 0 <= i < j < |s| ==> s[i] != s[j]
  }

  ghost predicate Shape(z: Zone) {
    && (forall k :: 0 <= k <= MAX_ORDER ==> NoDuplicates(z.lists[k]))
    && (forall p: nat, k: nat :: IsFree(z, p, k) ==> p !in z.live)
  }

  predicate Placed(z: Zone, p: nat, k: nat) {
    k <= MAX_ORDER && Aligned(p, k) && p + Pow2(k) <= z.pages
  }

  ghost predicate Disjoint(z: Zone) {
    forall p: nat, k: nat, q: nat, l: nat :: IsBlock(z, p, k) && IsBlock(z, q, l) && p <= q ==>
      (p == q && k == l) || p + Pow2(k) <= q
  }

  ghost predicate Covered(z: Zone, x: nat) {
    exists p: nat, k: nat :: IsBlock(z, p, k) && p <= x < p + Pow2(k)
  }

  /** Free and live blocks, each at a page divisible by its size, tile the zone. */
  ghost predicate Tiling(z: Zone) {
    && Shape(z)
    && (forall p: nat, k: nat :: IsBlock(z, p, k) ==> Placed(z, p, k))
    && Disjoint(z)
    && (forall x :: 0 <= x < z.pages ==> Covered(z, x))
  }

  /** No two buddies below the maximal order are both free. */
  ghost predicate Coalesced(z: Zone) {
    forall p: nat, k: nat :: IsFree(z, p, k) && k < MAX_ORDER ==> !IsFree(z, Buddy(p, k), k)
  }

  ghost predicate Inv(z: Zone) {
    Tiling(z) && Coalesced(z)
  }

  // ---- the four moves ----

  function IndexOf<T(==)>(s: seq<T>, x: T): (i: nat)
    requires x in s
    ensures i < |s| && s[i] == x
  {
    if s[0] == x then 0 else 1 + IndexOf(s[1..], x)
  }

  function Removed<T(==)>(s: seq<T>, x: T): seq<T>
    requires x in s
  {
    Without(s, IndexOf(s, x))
  }

  /** A block in hand, of an order the zone has a list for. */
  predicate InHand(z: Zone, p: nat) {
    p in z.live && z.live[p] <= MAX_ORDER
  }

  function Take(z: Zone, k: nat): Zone
    requires k <= MAX_ORDER && z.lists[k] != []
  {
    z.(lists := z.lists[k := z.lists[k][1..]], live := z.live[z.lists[k][0] := k])
  }

  function Halve(z: Zone, p: nat): Zone
    requires InHand(z, p) && z.live[p] > 0
  {
    var k := z.live[p] - 1;
    z.(lists := z.lists[k := [p + Pow2(k)] + z.lists[k]], live := z.live[p := k])
  }

  function Absorb(z: Zone, p: nat): Zone
    requires InHand(z, p) && Buddy(p, z.live[p]) in z.lists[z.live[p]]
  {
    var k := z.live[p];
    var q := Buddy(p, k);
    z.(lists := z.lists[k := Removed(z.lists[k], q)], live := (z.live - {p})[Min(p, q) := k + 1])
  }

  function Release(z: Zone, p: nat): Zone
    requires InHand(z, p)
  {
    var k := z.live[p];
    z.(lists := z.lists[k := [p] + z.lists[k]], live := z.live - {p})
  }

  // ---- the operations ----

  /** The smallest order >= k whose list is not empty, or MAX_ORDER + 1. */
  function FirstFit(z: Zone, k: nat): (m: nat)
    requires k <= MAX_ORDER + 1
    ensures k <= m <= MAX_ORDER + 1
    ensures m <= MAX_ORDER ==> z.lists[m] != []
    ensures forall j :: k <= j < m ==> z.lists[j] == []
    decreases MAX_ORDER + 1 - k
  {
    if k == MAX_ORDER + 1 || z.lists[k] != [] then k else FirstFit(z, k + 1)
  }

  function SplitTo(z: Zone, p: nat, o: nat): Zone
    requires InHand(z, p)
    decreases z.live[p]
  {
    if z.live[p] <= o then z else SplitTo(Halve(z, p), p, o)
  }

  function AllocOrder(z: Zone, o: nat): (Zone, Option<nat>)
  {
    if o > MAX_ORDER then (z, None)
    else
      var m := FirstFit(z, o);
      if m > MAX_ORDER then (z, None)
      else (SplitTo(Take(z, m), z.lists[m][0], o), Some(z.lists[m][0]))
  }

  function FreeBlock(z: Zone, p: nat): Zone
    requires InHand(z, p)
    decreases MAX_ORDER - z.live[p]
  {
    var k := z.live[p];
    if k < MAX_ORDER && Buddy(p, k) in z.lists[k]
    then FreeBlock(Absorb(z, p), Min(p, Buddy(p, k)))
    else Release(z, p)
  }

  /** The largest order, at most MAX_ORDER, whose blocks still fit in n pages. */
  function LargestOrder(n: nat, k: nat): (r: nat)
    requires n >= 1 && k <= MAX_ORDER && Pow2(k) <= n
    ensures k <= r <= MAX_ORDER && Pow2(r) <= n
    ensures r < MAX_ORDER ==> n < Pow2(r + 1)
    decreases MAX_ORDER - k
  {
    if k < MAX_ORDER && Pow2(k + 1) <= n then LargestOrder(n, k + 1) else k
  }

  /** Carves the largest block that fits in `left` pages off the end of a zone. */
  function CarveOne(z: Zone, left: nat): Zone
    requires left > 0
  {
    var k := LargestOrder(left, 0);
    z.(pages := z.pages + Pow2(k), lists := z.lists[k := [z.pages] + z.lists[k]])
  }

  /** The greedy carving of `left` more pages onto a zone. */
  function Carve(z: Zone, left: nat): Zone
    decreases left
  {
    if left == 0 then z else Carve(CarveOne(z, left), left - Pow2(LargestOrder(left, 0)))
  }

  function Empty(): Zone {
    Zone(0, [[], [], [], [], [], [], [], [], [], [], [], []], map[])
  }

  function Initial(pages: nat): Zone {
    Carve(Empty(), pages)
  }
}
