/** The buddy allocator as it runs: block headers in zone memory, one doubly linked list per order.
    Headers are reached by address arithmetic; a stale header may lie inside any block. */
module Buddy {
  import opened Dyadic
  import opened BuddyZone
  import opened BuddyTheorems
  import Words

  const MIN_BLOCK_SIZE: nat := 4096
  const BUDDY_MAGIC: nat := 0xBDD1234
  /** sizeof(struct buddy_block) on the 32-bit target. */
  const HEADER_SIZE: nat := 20
  const NULL: nat := 0

  datatype Header = Header(next: nat, prev: nat, order: nat, magic: nat, inUse: bool)

  type Memory = map<nat, Header>

  function Addr(start: nat, p: nat): nat {
    start + 4096 * p
  }

  /** The address of entry i of a list of pages, or null outside the list. */
  function At(start: nat, s: seq<nat>, i: int): nat {
    if 0 <= i < |s| then Addr(start, s[i]) else NULL
  }

  /** s is threaded through the headers as a doubly linked list of free blocks of order k. */
  ghost predicate Chain(mem: Memory, start: nat, s: seq<nat>, k: nat) {
    forall i {:trigger Linked(mem, start, s, k, i)} :: 0 <= i < |s| ==> Linked(mem, start, s, k, i)
  }

  ghost predicate Linked(mem: Memory, start: nat, s: seq<nat>, k: nat, i: nat)
    requires i < |s|
  {
    && Addr(start, s[i]) in mem
    && mem[Addr(start, s[i])] == Header(At(start, s, i + 1), At(start, s, i - 1), k, BUDDY_MAGIC, false)
  }

  ghost predicate LiveHeader(mem: Memory, start: nat, p: nat, k: nat) {
    Addr(start, p) in mem && mem[Addr(start, p)].(next := 0, prev := 0) == Header(0, 0, k, BUDDY_MAGIC, true)
  }

  /** Every block in use, but those to skip, has its header in order. */
  ghost predicate LiveHeaders(mem: Memory, start: nat, live: map<nat, nat>, skip: set<nat>) {
    forall p :: p in live && p !in skip ==> LiveHeader(mem, start, p, live[p])
  }

  ghost predicate HeldHeader(mem: Memory, start: nat, p: nat, k: nat) {
    Addr(start, p) in mem && mem[Addr(start, p)].(next := 0, prev := 0) == Header(0, 0, k, BUDDY_MAGIC, false)
  }

  /** A zone whose size is no multiple of a page has a tail that no block covers; it is harmless
      exactly when the pages end on a block of maximal order (TailIsNeverRead). */
  predicate SizeOk(size: nat) {
    size % MIN_BLOCK_SIZE == 0 || Aligned(size / MIN_BLOCK_SIZE, MAX_ORDER)
  }

  /** `block->next = x` and `block->prev = x`, for a block that may be null. */
  function SetNext(mem: Memory, block: nat, x: nat): Memory
    requires block != NULL ==> block in mem
  {
    if block == NULL then mem else mem[block := mem[block].(next := x)]
  }

  function SetPrev(mem: Memory, block: nat, x: nat): Memory
    requires block != NULL ==> block in mem
  {
    if block == NULL then mem else mem[block := mem[block].(prev := x)]
  }

  lemma PushChain(mem: Memory, start: nat, s: seq<nat>, k: nat, p: nat)
    requires start > 0 && Chain(mem, start, s, k) && p !in s && Addr(start, p) in mem
    requires mem[Addr(start, p)] == Header(At(start, s, 0), NULL, k, BUDDY_MAGIC, false)
    ensures s != [] ==> At(start, s, 0) in mem
    ensures Chain(SetPrev(mem, At(start, s, 0), Addr(start, p)), start, [p] + s, k)
  {
    var t := [p] + s;
    assert s != [] ==> Linked(mem, start, s, k, 0);
    var m := SetPrev(mem, At(start, s, 0), Addr(start, p));
    forall i | 0 <= i < |t| ensures Linked(m, start, t, k, i) {
      if i > 0 { assert t[i] == s[i - 1] && Linked(mem, start, s, k, i - 1); }
    }
  }

  lemma UnlinkChain(mem: Memory, start: nat, s: seq<nat>, k: nat, i: nat)
    requires start > 0 && Chain(mem, start, s, k) && NoDuplicates(s) && i < |s|
    ensures i > 0 ==> At(start, s, i - 1) in mem
    ensures i + 1 < |s| ==> At(start, s, i + 1) in mem
    ensures var m := SetPrev(SetNext(mem, At(start, s, i - 1), At(start, s, i + 1)),
                             At(start, s, i + 1), At(start, s, i - 1));
            Chain(m, start, s[..i] + s[i + 1..], k)
  {
    assert i > 0 ==> Linked(mem, start, s, k, i - 1);
    assert i + 1 < |s| ==> Linked(mem, start, s, k, i + 1);
    var t := s[..i] + s[i + 1..];
    var before, after := At(start, s, i - 1), At(start, s, i + 1);
    var m := SetPrev(SetNext(mem, before, after), after, before);
    forall j | 0 <= j < |t| ensures Linked(m, start, t, k, j) {
      var j' := if j < i then j else j + 1;
      assert t[j] == s[j'];
      assert Linked(mem, start, s, k, j');
      assert Addr(start, s[j']) == before <==> j' == i - 1;
      assert Addr(start, s[j']) == after <==> j' == i + 1;
      AtRemoved(start, s, i, j);
    }
  }

  lemma AtRemoved(start: nat, s: seq<nat>, i: nat, j: nat)
    requires i < |s| && j < |s| - 1
    ensures var t := s[..i] + s[i + 1..];
            && At(start, t, j + 1) == (if j < i - 1 then At(start, s, j + 1) else At(start, s, j + 2))
            && At(start, t, j - 1) == (if j <= i then At(start, s, j - 1) else At(start, s, j))
  {
  }

  /** No page is on two free lists, or twice on one. */
  ghost predicate ListsApart(lists: FreeLists) {
    && (forall k :: 0 <= k <= MAX_ORDER ==> NoDuplicates(lists[k]))
    && (forall q: nat, k: nat, l: nat :: OnList(lists, q, k) && OnList(lists, q, l) ==> k == l)
  }

  ghost predicate Listed(lists: FreeLists, q: nat) {
    exists k: nat :: OnList(lists, q, k)
  }

  lemma TilingListsApart(z: Zone)
    requires Inv(z)
    ensures ListsApart(z.lists)
    ensures forall q: nat :: q in z.live ==> !Listed(z.lists, q)
    ensures forall q: nat, k: nat :: q in z.live && k <= MAX_ORDER ==> q !in z.lists[k]
  {
    forall q: nat, k: nat, l: nat | OnList(z.lists, q, k) && OnList(z.lists, q, l) ensures k == l {
      assert IsBlock(z, q, k) && IsBlock(z, q, l);
    }
    forall q: nat, k: nat | OnList(z.lists, q, k) ensures q !in z.live {
      assert IsFree(z, q, k);
    }
    assert forall q: nat, k: nat :: k <= MAX_ORDER && q in z.lists[k] ==> OnList(z.lists, q, k);
  }

  ghost predicate Chains(mem: Memory, start: nat, lists: FreeLists) {
    forall k :: 0 <= k <= MAX_ORDER ==> Chain(mem, start, lists[k], k)
  }

  /** The header writes of add_to_free_list and remove_from_free_list. */
  function PushMem(mem: Memory, block: nat, head: nat): Memory
    requires block != NULL && block in mem && (head != NULL ==> head in mem)
  {
    SetPrev(SetPrev(SetNext(mem, block, head), block, NULL), head, block)
  }

  function UnlinkMem(mem: Memory, prev: nat, next: nat): Memory
    requires (prev != NULL ==> prev in mem) && (next != NULL ==> next in mem)
  {
    SetPrev(SetNext(mem, prev, next), next, prev)
  }

  /** m agrees with mem on the header of every page that is not one of `pages`. */
  ghost predicate SameExcept(m: Memory, mem: Memory, start: nat, pages: seq<nat>) {
    && m.Keys == mem.Keys
    && forall q: nat :: Addr(start, q) in mem && q !in pages ==> m[Addr(start, q)] == mem[Addr(start, q)]
  }

  lemma OtherChains(m: Memory, mem: Memory, start: nat, z: Zone, k: nat, pages: seq<nat>, w: Zone)
    requires Chains(mem, start, z.lists) && SameExcept(m, mem, start, pages) && k <= MAX_ORDER
    requires forall q: nat, l: nat :: q in pages && OnList(z.lists, q, l) ==> l == k
    requires w.lists == z.lists[k := w.lists[k]] && Chain(m, start, w.lists[k], k)
    ensures Chains(m, start, w.lists)
  {
    forall l | 0 <= l <= MAX_ORDER && l != k ensures Chain(m, start, w.lists[l], l) {
      var s := z.lists[l];
      assert Chain(mem, start, s, l);
      forall i | 0 <= i < |s| ensures Linked(m, start, s, l, i) {
        assert Linked(mem, start, s, l, i);
        assert OnList(z.lists, s[i], l);
      }
    }
  }

  lemma PushThreads(mem: Memory, start: nat, z: Zone, k: nat, p: nat)
    requires start > 0 && Chains(mem, start, z.lists) && ListsApart(z.lists) && k <= MAX_ORDER
    requires !Listed(z.lists, p) && Addr(start, p) in mem
    requires mem[Addr(start, p)].(next := 0, prev := 0) == Header(0, 0, k, BUDDY_MAGIC, false)
    ensures z.lists[k] != [] ==> At(start, z.lists[k], 0) in mem
    ensures var m := PushMem(mem, Addr(start, p), At(start, z.lists[k], 0));
            && Chains(m, start, z.lists[k := [p] + z.lists[k]])
            && SameExcept(m, mem, start, [p] + z.lists[k])
  {
    var s := z.lists[k];
    assert Chain(mem, start, s, k);
    assert s != [] ==> Linked(mem, start, s, k, 0);
    assert !OnList(z.lists, p, k);
    PushOne(mem, start, s, k, p);
    var m := PushMem(mem, Addr(start, p), At(start, s, 0));
    forall q: nat, l: nat | q in [p] + s && OnList(z.lists, q, l) ensures l == k {
      if q != p { assert OnList(z.lists, q, k); }
    }
    OtherChains(m, mem, start, z, k, [p] + s, z.(lists := z.lists[k := [p] + s]));
  }

  lemma PushOne(mem: Memory, start: nat, s: seq<nat>, k: nat, p: nat)
    requires start > 0 && Chain(mem, start, s, k) && p !in s && Addr(start, p) in mem
    requires mem[Addr(start, p)].(next := 0, prev := 0) == Header(0, 0, k, BUDDY_MAGIC, false)
    ensures s != [] ==> At(start, s, 0) in mem
    ensures var m := PushMem(mem, Addr(start, p), At(start, s, 0));
            Chain(m, start, [p] + s, k) && SameExcept(m, mem, start, [p] + s)
  {
    assert s != [] ==> Linked(mem, start, s, k, 0);
    var block, head := Addr(start, p), At(start, s, 0);
    var m1 := SetPrev(SetNext(mem, block, head), block, NULL);
    assert m1 == mem[block := Header(head, NULL, k, BUDDY_MAGIC, false)];
    forall i | 0 <= i < |s| ensures Linked(m1, start, s, k, i) {
      assert Linked(mem, start, s, k, i);
    }
    PushChain(m1, start, s, k, p);
    assert s != [] ==> s[0] in [p] + s;
  }

  lemma UnlinkThreads(mem: Memory, start: nat, z: Zone, k: nat, p: nat, i: nat)
    requires start > 0 && Chains(mem, start, z.lists) && ListsApart(z.lists) && OnList(z.lists, p, k)
    requires i == IndexOf(z.lists[k], p)
    ensures var s := z.lists[k];
            && Linked(mem, start, s, k, i)
            && (i > 0 ==> At(start, s, i - 1) in mem)
            && (i + 1 < |s| ==> At(start, s, i + 1) in mem)
            && var m := UnlinkMem(mem, At(start, s, i - 1), At(start, s, i + 1));
            && Chains(m, start, z.lists[k := Removed(s, p)])
            && SameExcept(m, mem, start, s)
            && m[Addr(start, p)] == mem[Addr(start, p)]
  {
    var s := z.lists[k];
    assert Chain(mem, start, s, k);
    UnlinkOne(mem, start, s, k, i);
    var m := UnlinkMem(mem, At(start, s, i - 1), At(start, s, i + 1));
    forall q: nat, l: nat | q in s && OnList(z.lists, q, l) ensures l == k {
      assert OnList(z.lists, q, k);
    }
    OtherChains(m, mem, start, z, k, s, z.(lists := z.lists[k := Removed(s, p)]));
  }

  lemma UnlinkOne(mem: Memory, start: nat, s: seq<nat>, k: nat, i: nat)
    requires start > 0 && Chain(mem, start, s, k) && NoDuplicates(s) && i < |s|
    ensures Linked(mem, start, s, k, i)
    ensures i > 0 ==> At(start, s, i - 1) in mem
    ensures i + 1 < |s| ==> At(start, s, i + 1) in mem
    ensures var m := UnlinkMem(mem, At(start, s, i - 1), At(start, s, i + 1));
            && Chain(m, start, s[..i] + s[i + 1..], k)
            && SameExcept(m, mem, start, s)
            && m[Addr(start, s[i])] == mem[Addr(start, s[i])]
  {
    assert i > 0 ==> Linked(mem, start, s, k, i - 1);
    assert i + 1 < |s| ==> Linked(mem, start, s, k, i + 1);
    UnlinkChain(mem, start, s, k, i);
    var before, after := At(start, s, i - 1), At(start, s, i + 1);
    UnlinkFrame(mem, before, after);
    var m := UnlinkMem(mem, before, after);
    forall q: nat | Addr(start, q) in mem && q !in s ensures m[Addr(start, q)] == mem[Addr(start, q)] {
      assert i > 0 ==> s[i - 1] in s;
      assert i + 1 < |s| ==> s[i + 1] in s;
    }
  }

  lemma UnlinkFrame(mem: Memory, prev: nat, next: nat)
    requires (prev != NULL ==> prev in mem) && (next != NULL ==> next in mem)
    ensures var m := UnlinkMem(mem, prev, next);
            m.Keys == mem.Keys && forall a :: a in mem && a != prev && a != next ==> m[a] == mem[a]
  {
  }

  /** m marks as in use exactly what mem does, at the addresses mem knows. */
  ghost predicate MarksKept(m: Memory, mem: Memory) {
    forall a :: a in mem ==> a in m && m[a].inUse == mem[a].inUse
  }

  /** The offset find_buddy computes from a block's offset, in bytes. */
  function BuddyOffset(offset: nat, size: nat): nat
    requires size > 0
  {
    XorOne(offset / size) * size
  }

  lemma ScaledIndex(i: nat, d: nat, c: nat)
    requires d > 0 && c > 0
    ensures d * c > 0 && (c * (i * d)) / (d * c) == i && i * (d * c) == c * (i * d)
  {
    assert i * (d * c) == (i * d) * c == c * (i * d);
    MulMonotone(1, d, c);
    MultipleOf(i, d * c);
  }

  lemma ScaledOffset(i: nat, d: nat, c: nat)
    requires d > 0 && c > 0
    ensures d * c > 0 && BuddyOffset(c * (i * d), d * c) == c * (XorOne(i) * d)
  {
    ScaledIndex(i, d, c);
    ScaledIndex(XorOne(i), d, c);
  }

  /** It is the offset of the buddy page. */
  lemma BuddyAddress(p: nat, k: nat, size: nat)
    requires Aligned(p, k) && size == Pow2(k) * MIN_BLOCK_SIZE
    ensures size > 0 && BuddyOffset(4096 * p, size) == 4096 * Buddy(p, k)
  {
    ScaledOffset(p / Pow2(k), Pow2(k), 4096);
    assert p / Pow2(k) * Pow2(k) == p by { ExactDivision(p, Pow2(k)); }
  }

  lemma ExactDivision(p: nat, d: nat)
    requires d > 0 && p % d == 0
    ensures p / d * d == p
  {
  }

  /** The end test of find_buddy, on bytes, is the end test on pages. */
  lemma BuddyInZone(z: Zone, p: nat, k: nat, size: nat)
    requires Inv(z) && IsLive(z, p, k) && k < MAX_ORDER
    requires z.pages == size / MIN_BLOCK_SIZE && SizeOk(size)
    ensures MIN_BLOCK_SIZE * Buddy(p, k) < size <==> Buddy(p, k) < z.pages
  {
    assert IsBlock(z, p, k);
    if Aligned(z.pages, MAX_ORDER) { BuddyInsideAlignedZone(z, p, k); }
  }

  /** The blocks handed out are aligned runs of bytes inside the zone's memory, and no two overlap. */
  lemma HandedOutApart(z: Zone, start: nat, size: nat, p: nat, k: nat, q: nat, l: nat)
    requires Inv(z) && z.pages == size / 4096 && IsLive(z, p, k) && IsLive(z, q, l) && p != q
    ensures Multiple(Addr(start, p) - start, 4096 * Pow2(k))
    ensures start <= Addr(start, p) && Addr(start, p) + 4096 * Pow2(k) <= start + size
    ensures Addr(start, p) + 4096 * Pow2(k) <= Addr(start, q) || Addr(start, q) + 4096 * Pow2(l) <= Addr(start, p)
  {
    assert IsBlock(z, p, k) && IsBlock(z, q, l) && Placed(z, p, k) && Placed(z, q, l);
    hide Inv, Pow2, Multiple;
    MultipleOfSize(p, Pow2(k));
    hide Aligned;
  }

  lemma MultipleOfSize(p: nat, d: nat)
    requires d > 0 && p % d == 0
    ensures Multiple(4096 * p, 4096 * d)
  {
    var n := Quotient(p, d);
    assert p == n * d;
    assert 4096 * p == Times(n, 4096 * d);
  }

  ghost predicate Multiple(x: int, d: nat) {
    exists n: nat :: x == Times(n, d)
  }

  lemma WriteUnlisted(mem: Memory, start: nat, z: Zone, q: nat, h: Header)
    requires Chains(mem, start, z.lists) && !Listed(z.lists, q)
    ensures Chains(mem[Addr(start, q) := h], start, z.lists)
  {
    var m := mem[Addr(start, q) := h];
    forall k | 0 <= k <= MAX_ORDER ensures Chain(m, start, z.lists[k], k) {
      var s := z.lists[k];
      assert Chain(mem, start, s, k);
      forall i | 0 <= i < |s| ensures Linked(m, start, s, k, i) {
        assert Linked(mem, start, s, k, i) && OnList(z.lists, s[i], k);
      }
    }
  }

  /** List updates touch no header of a block in use. */
  lemma LiveKept(m: Memory, mem: Memory, start: nat, z: Zone, k: nat, pages: seq<nat>, skip: set<nat>)
    requires Inv(z) && k <= MAX_ORDER && LiveHeaders(mem, start, z.live, skip)
    requires SameExcept(m, mem, start, pages)
    requires pages == z.lists[k] || (exists x: nat :: (x !in z.live || x in skip) && pages == [x] + z.lists[k])
    ensures LiveHeaders(m, start, z.live, skip)
  {
    TilingListsApart(z);
    forall p | p in z.live && p !in skip ensures LiveHeader(m, start, p, z.live[p]) {
      assert LiveHeader(mem, start, p, z.live[p]);
    }
  }

  lemma SplitHeaders(mem: Memory, m: Memory, start: nat, z: Zone, p: nat, k: nat)
    requires Inv(z) && IsLive(z, p, k + 1) && k < MAX_ORDER
    requires HeldHeader(mem, start, p, k + 1) && LiveHeaders(mem, start, z.live, {p})
    requires SameExcept(m, mem[Addr(start, p + Pow2(k)) := Header(NULL, NULL, k, BUDDY_MAGIC, false)], start,
                        [p + Pow2(k)] + z.lists[k])
    ensures var a := Addr(start, p);
            && a in m && HeldHeader(m[a := m[a].(order := k)], start, p, k)
            && LiveHeaders(m[a := m[a].(order := k)], start, z.live[p := k], {p})
  {
    hide Inv;
    var q := p + Pow2(k);
    UpperHalfUnused(z, p, k);
    TilingListsApart(z);
    LiveKept(m, mem[Addr(start, q) := Header(NULL, NULL, k, BUDDY_MAGIC, false)], start, z, k, [q] + z.lists[k], {p});
  }

  lemma MergeHeaders(mem: Memory, m: Memory, start: nat, z: Zone, p: nat, k: nat)
    requires Inv(z) && IsLive(z, p, k) && k < MAX_ORDER && IsFree(z, Buddy(p, k), k)
    requires HeldHeader(mem, start, p, k) && LiveHeaders(mem, start, z.live, {p})
    requires SameExcept(m, mem, start, z.lists[k]) && HeldHeader(m, start, Buddy(p, k), k)
    ensures var x := Min(p, Buddy(p, k));
            var a := Addr(start, x);
            && a in m && HeldHeader(m[a := m[a].(order := k + 1)], start, x, k + 1)
            && LiveHeaders(m[a := m[a].(order := k + 1)], start, (z.live - {p})[x := k + 1], {x})
  {
    hide Inv;
    TilingListsApart(z);
    LiveKept(m, mem, start, z, k, z.lists[k], {p});
  }

  lemma ReleaseHeaders(mem: Memory, m: Memory, start: nat, z: Zone, p: nat, k: nat)
    requires Inv(z) && IsLive(z, p, k) && k <= MAX_ORDER && LiveHeaders(mem, start, z.live, {p})
    requires SameExcept(m, mem, start, [p] + z.lists[k])
    ensures LiveHeaders(m, start, z.live - {p}, {})
  {
    hide Inv;
    LiveKept(m, mem, start, z, k, [p] + z.lists[k], {p});
  }

  lemma TakeFacts(z: Zone, k: nat)
    requires Inv(z) && k <= MAX_ORDER && z.lists[k] != []
    ensures var p := z.lists[k][0];
            && IsFree(z, p, k) && p !in z.live && |z.live[p := k]| == |z.live| + 1
            && Removed(z.lists[k], p) == z.lists[k][1..]
  {
    assert IsFree(z, z.lists[k][0], k);
  }

  lemma TakeHeaders(mem: Memory, m: Memory, start: nat, z: Zone, k: nat)
    requires Inv(z) && k <= MAX_ORDER && z.lists[k] != [] && LiveHeaders(mem, start, z.live, {})
    requires SameExcept(m, mem, start, z.lists[k])
    ensures LiveHeaders(m, start, z.live[z.lists[k][0] := k], {z.lists[k][0]})
  {
    hide Inv;
    LiveKept(m, mem, start, z, k, z.lists[k], {});
  }

  /** Marking the block in hand as in use completes the live headers. */
  lemma MarkTaken(mem: Memory, start: nat, z: Zone, p: nat)
    requires Inv(z) && p in z.live && Chains(mem, start, z.lists)
    requires HeldHeader(mem, start, p, z.live[p]) && LiveHeaders(mem, start, z.live, {p})
    ensures var m := mem[Addr(start, p) := mem[Addr(start, p)].(inUse := true)];
            Chains(m, start, z.lists) && LiveHeaders(m, start, z.live, {})
  {
    hide Inv;
    TilingListsApart(z);
    WriteUnlisted(mem, start, z, p, mem[Addr(start, p)].(inUse := true));
  }

  lemma LiveIsPlaced(z: Zone, p: nat)
    requires Inv(z) && p in z.live
    ensures InHand(z, p)
  {
    assert IsBlock(z, p, z.live[p]);
  }

  /** Clearing the mark puts the block back in hand. */
  lemma MarkFree(mem: Memory, start: nat, z: Zone, p: nat)
    requires Inv(z) && p in z.live && Chains(mem, start, z.lists) && LiveHeaders(mem, start, z.live, {})
    ensures Addr(start, p) in mem && InHand(z, p) && |z.live| > 0
    ensures var m := mem[Addr(start, p) := mem[Addr(start, p)].(inUse := false)];
            && Chains(m, start, z.lists) && HeldHeader(m, start, p, z.live[p])
            && LiveHeaders(m, start, z.live, {p})
  {
    LiveIsPlaced(z, p);
    hide Inv;
    TilingListsApart(z);
    assert LiveHeader(mem, start, p, z.live[p]);
    WriteUnlisted(mem, start, z, p, mem[Addr(start, p)].(inUse := false));
  }

  lemma EmptyLists()
    ensures forall k :: 0 <= k <= MAX_ORDER ==> Empty().lists[k] == []
  {
  }

  lemma EmptyChains(mem: Memory, start: nat)
    ensures Chains(mem, start, Empty().lists)
  {
    EmptyLists();
  }

  lemma CarvingListsApart(z: Zone, left: nat, top: nat)
    requires Carving(z, left, top) && left > 0
    ensures ListsApart(z.lists) && !Listed(z.lists, z.pages)
  {
    TilingListsApart(z);
    CarveOneKeeps(z, left, top);
  }

  /** Only headers at block starts matter: whatever else clients write over the zone, stale headers
      included, the lists and the live headers stay in order. */
  lemma StaleHeadersAreIrrelevant(mem: Memory, m: Memory, start: nat, z: Zone)
    requires Chains(mem, start, z.lists) && LiveHeaders(mem, start, z.live, {})
    requires forall p: nat, k: nat :: IsBlock(z, p, k) && Addr(start, p) in mem ==>
      Addr(start, p) in m && m[Addr(start, p)] == mem[Addr(start, p)]
    ensures Chains(m, start, z.lists) && LiveHeaders(m, start, z.live, {})
  {
    forall k | 0 <= k <= MAX_ORDER ensures Chain(m, start, z.lists[k], k) {
      var s := z.lists[k];
      assert Chain(mem, start, s, k);
      forall i | 0 <= i < |s| ensures Linked(m, start, s, k, i) {
        assert Linked(mem, start, s, k, i) && IsBlock(z, s[i], k);
      }
    }
    forall p | p in z.live ensures LiveHeader(m, start, p, z.live[p]) {
      assert LiveHeader(mem, start, p, z.live[p]) && IsBlock(z, p, z.live[p]);
    }
  }

  /** The upper half of a block is no block itself: a header found there is stale. */
  lemma UpperHalfUnused(z: Zone, p: nat, k: nat)
    requires Inv(z) && IsLive(z, p, k + 1)
    ensures !Listed(z.lists, p + Pow2(k)) && p + Pow2(k) !in z.live
    ensures !Listed(z.lists, p)
  {
    var q := p + Pow2(k);
    assert IsBlock(z, p, k + 1);
    assert forall l: nat :: OnList(z.lists, q, l) ==> IsBlock(z, q, l) by { assert forall l: nat :: OnList(z.lists, q, l) ==> IsFree(z, q, l); }
    assert q in z.live ==> IsBlock(z, q, z.live[q]);
    assert forall l: nat :: OnList(z.lists, p, l) ==> IsFree(z, p, l);
  }

  lemma NotListedAfterPush(z: Zone, w: Zone, k: nat, q: nat, p: nat)
    requires k <= MAX_ORDER && w.lists == z.lists[k := [q] + z.lists[k]] && p != q && !Listed(z.lists, p)
    ensures !Listed(w.lists, p)
  {
    assert forall l: nat :: OnList(w.lists, p, l) ==> OnList(z.lists, p, l);
  }

  /** The merged block is on no list, and its first page is a half's first page. */
  lemma MergedUnlisted(z: Zone, p: nat, k: nat)
    requires Inv(z) && IsLive(z, p, k) && k < MAX_ORDER && IsFree(z, Buddy(p, k), k)
    ensures InHand(z, p)
    ensures var q, m := Buddy(p, k), Min(p, Buddy(p, k));
            && p != q && q !in z.live && !Listed(Absorb(z, p).lists, m) && !Listed(z.lists, p)
            && |(z.live - {p})[m := k + 1]| == |z.live|
  {
    var q, m := Buddy(p, k), Min(p, Buddy(p, k));
    AbsorbKeeps(z, p, k);
    TilingListsApart(z);
    TilingListsApart(Absorb(z, p));
    var rest := z.live - {p};
    assert z.live == rest[p := k];
    assert m !in rest && p !in rest;
  }

  class BuddyAllocator {
    /** The header area: what the allocator last wrote at each address. */
    var mem: Memory
    const freeLists: array<nat>
    const freeBlocks: array<nat>
    const memoryStart: nat
    const memorySize: nat
    var totalBlocks: nat
    var allocatedBlocks: nat
    ghost var zone: Zone

    /** The lists in the headers are those of the zone. */
    ghost predicate Threaded()
      reads this, freeLists, freeBlocks
    {
      && freeLists.Length == MAX_ORDER + 1 && freeBlocks.Length == MAX_ORDER + 1
      && freeLists != freeBlocks && memoryStart > 0
      && Chains(mem, memoryStart, zone.lists)
      && (forall k :: 0 <= k <= MAX_ORDER ==> freeLists[k] == At(memoryStart, zone.lists[k], 0))
      && (forall k :: 0 <= k <= MAX_ORDER ==> freeBlocks[k] == |zone.lists[k]|)
    }

    ghost predicate Valid()
      reads this, freeLists, freeBlocks
    {
      && Threaded() && Inv(zone)
      && zone.pages == memorySize / MIN_BLOCK_SIZE == totalBlocks
      && SizeOk(memorySize) && memoryStart + memorySize < Words.U32
      && allocatedBlocks == |zone.live|
      && LiveHeaders(mem, memoryStart, zone.live, {})
    }

    /** init: carves the zone greedily, from its start, into free blocks. */
    constructor (start: nat, size: nat)
      requires start > 0 && start + size < Words.U32 && SizeOk(size)
      ensures Valid() && memoryStart == start && memorySize == size
      ensures zone == Initial(size / MIN_BLOCK_SIZE)
      ensures fresh(freeLists) && fresh(freeBlocks)
    {
      memoryStart, memorySize := start, size;
      totalBlocks := size / MIN_BLOCK_SIZE;
      allocatedBlocks := 0;
      freeLists := new nat[MAX_ORDER + 1](_ => NULL);
      freeBlocks := new nat[MAX_ORDER + 1](_ => 0);
      mem := map[];
      zone := Empty();
      new;
      hide Inv, Carving, Carve, Empty, Chains, Initial, Aligned;
      EmptyLists();
      EmptyChains(mem, start);
      EmptyCarving(size / MIN_BLOCK_SIZE);
      InitialInv(size / MIN_BLOCK_SIZE);
      CarveAll();
    }

    method CarveAll()
      requires Threaded() && zone == Empty() && Carving(zone, memorySize / MIN_BLOCK_SIZE, MAX_ORDER)
      modifies `mem, `zone, freeLists, freeBlocks
      ensures Threaded() && zone == Initial(memorySize / MIN_BLOCK_SIZE)
    {
      hide Inv, Carving, Chains, LargestOrder, Pow2;
      var currentAddr: nat, currentSize: nat := memoryStart, memorySize;
      ghost var top := MAX_ORDER;
      while currentSize >= MIN_BLOCK_SIZE
        invariant Threaded() && Carving(zone, currentSize / MIN_BLOCK_SIZE, top)
        invariant Carve(zone, currentSize / MIN_BLOCK_SIZE) == Initial(memorySize / MIN_BLOCK_SIZE)
        invariant currentAddr == Addr(memoryStart, zone.pages)
      {
        ghost var z := zone;
        var order := CarveBlock(currentAddr, currentSize, top);
        assert zone.pages == z.pages + Pow2(order);
        top := order;
        var blockSize := Pow2(order) * MIN_BLOCK_SIZE;
        currentAddr := currentAddr + blockSize;
        currentSize := currentSize - blockSize;
      }
    }

    /** One turn of the loop of init. */
    method CarveBlock(block: nat, size: nat, ghost top: nat) returns (order: nat)
      requires Threaded() && size >= MIN_BLOCK_SIZE && Carving(zone, size / MIN_BLOCK_SIZE, top)
      requires block == Addr(memoryStart, zone.pages)
      modifies `mem, `zone, freeLists, freeBlocks
      ensures order == LargestOrder(size / MIN_BLOCK_SIZE, 0)
      ensures Pow2(order) * MIN_BLOCK_SIZE <= size
      ensures (size - Pow2(order) * MIN_BLOCK_SIZE) / MIN_BLOCK_SIZE == size / MIN_BLOCK_SIZE - Pow2(order)
      ensures Threaded() && zone == CarveOne(old(zone), size / MIN_BLOCK_SIZE)
      ensures Carving(zone, size / MIN_BLOCK_SIZE - Pow2(order), order)
    {
      hide Inv, Carving, Chains, ListsApart, Listed, SameExcept, LargestOrder, Pow2;
      ghost var left, z := size / MIN_BLOCK_SIZE, zone;
      CarveOneKeeps(z, left, top);
      CarvingListsApart(z, left, top);
      order := FittingOrder(size);
      WriteUnlisted(mem, memoryStart, z, z.pages, Header(NULL, NULL, order, BUDDY_MAGIC, false));
      mem := mem[block := Header(NULL, NULL, order, BUDDY_MAGIC, false)];
      AddToFreeList(block, order, z.pages);
      zone := zone.(pages := zone.pages + Pow2(order));
    }

    /** The inner loop of init: the largest order whose block fits in `size` bytes. */
    static method FittingOrder(size: nat) returns (order: nat)
      requires size >= MIN_BLOCK_SIZE
      ensures order == LargestOrder(size / MIN_BLOCK_SIZE, 0)
      ensures Pow2(order) * MIN_BLOCK_SIZE <= size
      ensures (size - Pow2(order) * MIN_BLOCK_SIZE) / MIN_BLOCK_SIZE == size / MIN_BLOCK_SIZE - Pow2(order)
    {
      hide Pow2;
      Pow2Step(0);
      order := 0;
      while 2 * Pow2(order) * MIN_BLOCK_SIZE <= size && order < MAX_ORDER
        invariant order <= MAX_ORDER && Pow2(order) <= size / MIN_BLOCK_SIZE
        invariant LargestOrder(size / MIN_BLOCK_SIZE, order) == LargestOrder(size / MIN_BLOCK_SIZE, 0)
      {
        Pow2Step(order);
        order := order + 1;
      }
      Pow2Step(order);
    }

    method AddToFreeList(block: nat, order: nat, ghost p: nat)
      requires Threaded() && ListsApart(zone.lists) && order <= MAX_ORDER
      requires block == Addr(memoryStart, p) && block in mem && !Listed(zone.lists, p)
      requires mem[block].(next := 0, prev := 0) == Header(0, 0, order, BUDDY_MAGIC, false)
      modifies `mem, `zone, freeLists, freeBlocks
      ensures Threaded()
      ensures zone == old(zone).(lists := old(zone).lists[order := [p] + old(zone).lists[order]])
      ensures SameExcept(mem, old(mem), memoryStart, [p] + old(zone).lists[order])
      ensures MarksKept(mem, old(mem))
    {
      hide Chains, ListsApart, SameExcept, Listed;
      PushThreads(mem, memoryStart, zone, order, p);
      mem := SetNext(mem, block, freeLists[order]);
      mem := SetPrev(mem, block, NULL);
      if freeLists[order] != NULL {
        mem := SetPrev(mem, freeLists[order], block);
      }
      freeLists[order] := block;
      freeBlocks[order] := freeBlocks[order] + 1;
      zone := zone.(lists := zone.lists[order := [p] + zone.lists[order]]);
    }

    method RemoveFromFreeList(block: nat, order: nat, ghost p: nat)
      requires Threaded() && ListsApart(zone.lists) && order <= MAX_ORDER
      requires block == Addr(memoryStart, p) && IsFree(zone, p, order)
      modifies `mem, `zone, freeLists, freeBlocks
      ensures Threaded()
      ensures zone == old(zone).(lists := old(zone).lists[order := Removed(old(zone).lists[order], p)])
      ensures SameExcept(mem, old(mem), memoryStart, old(zone).lists[order])
      ensures MarksKept(mem, old(mem))
      ensures block in mem && mem[block].(next := 0, prev := 0) == Header(0, 0, order, BUDDY_MAGIC, false)
    {
      hide Chains, ListsApart, SameExcept;
      ghost var s := zone.lists[order];
      UnlinkThreads(mem, memoryStart, zone, order, p, IndexOf(s, p));
      var prev, next := mem[block].prev, mem[block].next;
      if prev != NULL {
        mem := SetNext(mem, prev, next);
      } else {
        freeLists[order] := next;
      }
      if next != NULL {
        mem := SetPrev(mem, next, prev);
      }
      freeBlocks[order] := freeBlocks[order] - 1;
      zone := zone.(lists := zone.lists[order := Removed(s, p)]);
    }

    /** A block in hand: counted live in the zone, not yet marked in its header nor counted. */
    ghost predicate Holding(p: nat)
      reads this, freeLists, freeBlocks
    {
      && Threaded() && Inv(zone)
      && zone.pages == memorySize / MIN_BLOCK_SIZE == totalBlocks
      && SizeOk(memorySize) && memoryStart + memorySize < Words.U32
      && allocatedBlocks + 1 == |zone.live|
      && InHand(zone, p) && HeldHeader(mem, memoryStart, p, zone.live[p])
      && LiveHeaders(mem, memoryStart, zone.live, {p})
    }

    /** The buddy of a block in hand if it is free as a whole, else null. */
    method FindBuddy(block: nat, order: nat, ghost p: nat) returns (r: nat)
      requires Holding(p) && block == Addr(memoryStart, p) && order == zone.live[p] < MAX_ORDER
      ensures r != NULL <==> Buddy(p, order) in zone.lists[order]
      ensures r != NULL ==> r == Addr(memoryStart, Buddy(p, order))
    {
      var blockSize := Pow2(order) * MIN_BLOCK_SIZE;
      BuddyHeader(p, order, blockSize);
      var buddy := memoryStart + BuddyOffset(block - memoryStart, blockSize);
      if buddy >= memoryStart + memorySize {
        return NULL;
      }
      if mem[buddy].magic == BUDDY_MAGIC && !mem[buddy].inUse && mem[buddy].order == order {
        return buddy;
      }
      return NULL;
    }

    /** The address find_buddy reads: inside the zone it is the start of a block of the tiling, whose
        header tells truly whether the whole buddy is free. */
    lemma BuddyHeader(p: nat, k: nat, size: nat)
      requires Holding(p) && k == zone.live[p] < MAX_ORDER && size == Pow2(k) * MIN_BLOCK_SIZE
      ensures size > 0 && BuddyOffset(4096 * p, size) == 4096 * Buddy(p, k)
      ensures 4096 * Buddy(p, k) >= memorySize ==> Buddy(p, k) !in zone.lists[k]
      ensures 4096 * Buddy(p, k) < memorySize ==>
        var a := Addr(memoryStart, Buddy(p, k));
        && a in mem && a != Addr(memoryStart, p)
        && (Buddy(p, k) in zone.lists[k] <==>
              mem[a].magic == BUDDY_MAGIC && !mem[a].inUse && mem[a].order == k)
    {
      var q := Buddy(p, k);
      assert IsBlock(zone, p, k) && Placed(zone, p, k);
      BuddyAddress(p, k, size);
      BuddyFacts(p, k);
      BuddyInZone(zone, p, k, memorySize);
      if q < zone.pages {
        var l := BuddyPageStartsABlock(zone, p, k);
        TheHeader(q, l);
        assert IsFree(zone, q, k) ==> IsBlock(zone, q, k);
      } else {
        assert IsBlock(zone, q, k) ==> Placed(zone, q, k);
      }
    }

    lemma TheHeader(q: nat, l: nat)
      requires Threaded() && Tiling(zone) && IsBlock(zone, q, l) && l <= MAX_ORDER
      requires IsLive(zone, q, l) ==> LiveHeader(mem, memoryStart, q, l)
      ensures Addr(memoryStart, q) in mem
      ensures mem[Addr(memoryStart, q)].(next := 0, prev := 0) == Header(0, 0, l, BUDDY_MAGIC, IsLive(zone, q, l))
    {
      if IsFree(zone, q, l) {
        var i := IndexOf(zone.lists[l], q);
        assert Chain(mem, memoryStart, zone.lists[l], l) && Linked(mem, memoryStart, zone.lists[l], l, i);
      }
    }

    /** One turn of the loop of split_block. */
    method SplitOnce(block: nat, order: nat, ghost p: nat)
      requires Holding(p) && block == Addr(memoryStart, p) && order + 1 == zone.live[p]
      modifies `mem, `zone, freeLists, freeBlocks
      ensures Holding(p) && zone == Halve(old(zone), p)
    {
      hide Inv, Chains, ListsApart, Listed, SameExcept, LiveHeaders;
      ghost var z, q := zone, p + Pow2(order);
      HalveKeeps(z, p, order);
      UpperHalfUnused(z, p, order);
      TilingListsApart(z);
      var halfSize := Pow2(order) * MIN_BLOCK_SIZE;
      var buddy := block + halfSize;
      assert buddy == Addr(memoryStart, q);
      WriteUnlisted(mem, memoryStart, z, q, Header(NULL, NULL, order, BUDDY_MAGIC, false));
      mem := mem[buddy := Header(NULL, NULL, order, BUDDY_MAGIC, false)];
      AddToFreeList(buddy, order, q);
      NotListedAfterPush(z, zone, order, q, p);
      SplitHeaders(old(mem), mem, memoryStart, z, p, order);
      WriteUnlisted(mem, memoryStart, zone, p, mem[block].(order := order));
      mem := mem[block := mem[block].(order := order)];
      zone := zone.(live := zone.live[p := order]);
    }

    method SplitBlock(block: nat, start: nat, target: nat, ghost p: nat)
      requires Holding(p) && block == Addr(memoryStart, p) && start == zone.live[p] >= target
      modifies `mem, `zone, freeLists, freeBlocks
      ensures Holding(p) && zone == SplitTo(old(zone), p, target)
    {
      var order := start;
      while order > target
        invariant target <= order && Holding(p) && order == zone.live[p]
        invariant SplitTo(zone, p, target) == SplitTo(old(zone), p, target)
      {
        order := order - 1;
        SplitOnce(block, order, p);
      }
    }

    /** One turn of the loop of coalesce_block, once the buddy is known to be free. */
    method MergeOnce(block: nat, buddy: nat, order: nat, ghost p: nat) returns (merged: nat)
      requires Holding(p) && block == Addr(memoryStart, p) && order == zone.live[p] < MAX_ORDER
      requires IsFree(zone, Buddy(p, order), order) && buddy == Addr(memoryStart, Buddy(p, order))
      modifies `mem, `zone, freeLists, freeBlocks
      ensures merged == Addr(memoryStart, Min(p, Buddy(p, order)))
      ensures zone == Absorb(old(zone), p) && Holding(Min(p, Buddy(p, order)))
      ensures MarksKept(mem, old(mem))
    {
      hide Inv, Chains, ListsApart, Listed, SameExcept, LiveHeaders, Pow2;
      ghost var z, q, m := zone, Buddy(p, order), Min(p, Buddy(p, order));
      AbsorbKeeps(z, p, order);
      TilingListsApart(z);
      MergedUnlisted(z, p, order);
      RemoveFromFreeList(buddy, order, q);
      MergeHeaders(old(mem), mem, memoryStart, z, p, order);
      merged := if buddy < block then buddy else block;
      assert zone.lists == Absorb(z, p).lists;
      assert !Listed(zone.lists, m) by {
        assert forall k: nat :: IsFree(zone, m, k) ==> IsFree(Absorb(z, p), m, k);
      }
      WriteUnlisted(mem, memoryStart, zone, m, mem[merged].(order := order + 1));
      mem := mem[merged := mem[merged].(order := order + 1)];
      zone := zone.(live := (zone.live - {p})[m := order + 1]);
    }

    /** The end of coalesce_block, once no free buddy is left. */
    method ReleaseBlock(block: nat, order: nat, ghost g: nat)
      requires Holding(g) && block == Addr(memoryStart, g) && order == zone.live[g]
      requires order < MAX_ORDER ==> Buddy(g, order) !in zone.lists[order]
      modifies `mem, `zone, freeLists, freeBlocks
      ensures Valid() && zone == Release(old(zone), g) && MarksKept(mem, old(mem))
    {
      hide Inv, Chains, ListsApart, Listed, SameExcept, LiveHeaders, MarksKept;
      ghost var z := zone;
      TilingListsApart(z);
      ReleaseKeeps(z, g, order);
      ghost var m := mem;
      AddToFreeList(block, order, g);
      ReleaseHeaders(m, mem, memoryStart, z, g, order);
      zone := zone.(live := zone.live - {g});
    }

    /** coalesce_block; `looked` are the pages of the buddies that find_buddy was asked for. */
    method CoalesceBlock(start: nat, startOrder: nat, ghost p: nat) returns (ghost looked: set<nat>)
      requires Holding(p) && start == Addr(memoryStart, p) && startOrder == zone.live[p]
      modifies `mem, `zone, freeLists, freeBlocks
      ensures Valid() && zone == FreeBlock(old(zone), p) && MarksKept(mem, old(mem))
      ensures looked == LookedAt(old(zone), p)
    {
      hide Inv, Chains, ListsApart, Listed, SameExcept, LiveHeaders, Pow2, Buddy, Release, LookedAt;
      var block, order := start, startOrder;
      ghost var g := p;
      ghost var all := LookedAt(zone, p);
      looked := {};
      assert looked + all == all;
      while order < MAX_ORDER
        invariant Holding(g) && block == Addr(memoryStart, g) && order == zone.live[g]
        invariant FreeBlock(zone, g) == FreeBlock(old(zone), p)
        invariant looked + LookedAt(zone, g) == all
        invariant MarksKept(mem, old(mem))
      {
        var buddy := FindBuddy(block, order, g);
        LookedNext(zone, g, looked, all);
        looked := looked + {Buddy(g, order)};
        if buddy == NULL {
          break;
        }
        ghost var q := Buddy(g, order);
        block := MergeOnce(block, buddy, order, g);
        order := order + 1;
        g := Min(g, q);
      }
      if order == MAX_ORDER { LookedLast(zone, g, looked, all); }
      ReleaseBlock(block, order, g);
    }

    /** The smallest order whose blocks hold `size` bytes, but never more than MAX_ORDER. The header
        that alloc_order puts in front of the client's bytes is not accounted for. */
    method GetOrder(size: nat) returns (order: nat)
      ensures order <= MAX_ORDER
      ensures order < MAX_ORDER ==> size <= Pow2(order) * MIN_BLOCK_SIZE
      ensures order > 0 ==> size > Pow2(order - 1) * MIN_BLOCK_SIZE
    {
      order := 0;
      var blockSize := MIN_BLOCK_SIZE;
      while blockSize < size && order < MAX_ORDER
        invariant order <= MAX_ORDER && blockSize == Pow2(order) * MIN_BLOCK_SIZE
        invariant order > 0 ==> size > Pow2(order - 1) * MIN_BLOCK_SIZE
      {
        order := order + 1;
        blockSize := 2 * blockSize;
      }
    }

    /** The search of alloc_order for the smallest order with a free block. */
    method FindOrder(order: nat) returns (current: nat)
      requires Threaded() && order <= MAX_ORDER
      ensures current == FirstFit(zone, order)
    {
      hide Chains;
      current := order;
      while current <= MAX_ORDER && freeLists[current] == NULL
        invariant order <= current <= MAX_ORDER + 1
        invariant FirstFit(zone, current) == FirstFit(zone, order)
      {
        current := current + 1;
      }
    }

    /** alloc_order: the first free block of the smallest sufficient order m is taken and split. */
    method AllocOrder(order: nat) returns (ptr: nat, ghost m: nat)
      requires Valid()
      modifies `mem, `zone, `allocatedBlocks, freeLists, freeBlocks
      ensures Valid()
      ensures ptr == NULL ==> zone == old(zone) && forall j :: order <= j <= MAX_ORDER ==> old(zone).lists[j] == []
      ensures ptr != NULL ==>
        && ptr >= memoryStart + 20 && (ptr - 20 - memoryStart) % 4096 == 0
        && SmallestTaken(old(zone), zone, order, m, (ptr - 20 - memoryStart) / 4096)
      ensures var (w, r) := BuddyZone.AllocOrder(old(zone), order);
              zone == w && ptr == if r.None? then NULL else Addr(memoryStart, r.value) + HEADER_SIZE
    {
      hide Inv, Chains, ListsApart, Listed, SameExcept, LiveHeaders, MarksKept, Pow2, SmallestTaken;
      m := 0;
      if order > MAX_ORDER { return NULL, m; }
      m := SmallestIsSplit(zone, order);
      var current := FindOrder(order);
      if current > MAX_ORDER { return NULL, m; }
      var block := freeLists[current];
      ghost var p := zone.lists[current][0];
      TakeBlock(block, current, p);
      if current > order {
        SplitBlock(block, current, order, p);
      }
      MarkTaken(mem, memoryStart, zone, p);
      mem := mem[block := mem[block].(inUse := true)];
      allocatedBlocks := allocatedBlocks + 1;
      ptr := block + HEADER_SIZE;
    }

    /** Takes the head of a list in hand. */
    method TakeBlock(block: nat, k: nat, ghost p: nat)
      requires Valid() && k <= MAX_ORDER && zone.lists[k] != []
      requires p == zone.lists[k][0] && block == Addr(memoryStart, p)
      modifies `mem, `zone, freeLists, freeBlocks
      ensures Holding(p) && zone == Take(old(zone), k)
    {
      hide Inv, Chains, ListsApart, Listed, SameExcept, LiveHeaders, MarksKept, Pow2;
      ghost var z := zone;
      TakeKeeps(z, k);
      TakeFacts(z, k);
      TilingListsApart(z);
      RemoveFromFreeList(block, k, p);
      TakeHeaders(old(mem), mem, memoryStart, z, k);
      zone := zone.(live := zone.live[p := k]);
    }

    method Alloc(size: nat) returns (ptr: nat, ghost order: nat)
      requires Valid()
      modifies `mem, `zone, `allocatedBlocks, freeLists, freeBlocks
      ensures Valid()
      ensures size == 0 ==> ptr == NULL && zone == old(zone)
      ensures size > 0 ==>
        && order <= MAX_ORDER
        && (order < MAX_ORDER ==> size <= Pow2(order) * MIN_BLOCK_SIZE)
        && (order > 0 ==> size > Pow2(order - 1) * MIN_BLOCK_SIZE)
        && var (w, r) := BuddyZone.AllocOrder(old(zone), order);
           zone == w && ptr == if r.None? then NULL else Addr(memoryStart, r.value) + HEADER_SIZE
    {
      order := 0;
      if size == 0 { return NULL, 0; }
      var k := GetOrder(size);
      order := k;
      ghost var m;
      ptr, m := AllocOrder(k);
    }

    /** Frees the block of the given order at page p, which is in use. */
    method FreeOrder(ptr: nat, order: nat, ghost p: nat)
      requires Valid()
      requires ptr != NULL && order <= MAX_ORDER ==>
        IsLive(zone, p, order) && ptr == Addr(memoryStart, p) + HEADER_SIZE
      modifies `mem, `zone, `allocatedBlocks, freeLists, freeBlocks
      ensures Valid()
      ensures if ptr != NULL && order <= MAX_ORDER
        then && InHand(old(zone), p) && zone == FreeBlock(old(zone), p)
             && Addr(memoryStart, p) in mem && !mem[Addr(memoryStart, p)].inUse
        else zone == old(zone)
    {
      hide Inv, Chains, ListsApart, Listed, SameExcept, LiveHeaders;
      if ptr == NULL || order > MAX_ORDER { return; }
      var block := ptr - HEADER_SIZE;
      MarkFree(mem, memoryStart, zone, p);
      mem := mem[block := mem[block].(inUse := false)];
      allocatedBlocks := allocatedBlocks - 1;
      ghost var _ := CoalesceBlock(block, order, p);
    }

    /** Frees whatever block `ptr` heads. A header that is not marked in use is rejected; one that is
        must be that of the block at page p. Afterwards the header at ptr is not marked in use, so a
        second free of the same pointer, right after, is rejected. */
    method Free(ptr: nat, ghost p: nat) returns (freed: bool)
      requires Valid()
      requires ptr != NULL ==> ptr >= HEADER_SIZE && ptr - HEADER_SIZE in mem
      requires ptr != NULL && mem[ptr - HEADER_SIZE].magic == BUDDY_MAGIC && mem[ptr - HEADER_SIZE].inUse ==>
        p in zone.live && ptr == Addr(memoryStart, p) + HEADER_SIZE
      modifies `mem, `zone, `allocatedBlocks, freeLists, freeBlocks
      ensures Valid()
      ensures freed <==> p in old(zone).live && ptr == Addr(memoryStart, p) + HEADER_SIZE
      ensures freed ==> ptr - HEADER_SIZE in mem && !mem[ptr - HEADER_SIZE].inUse
      ensures if freed then InHand(old(zone), p) && zone == FreeBlock(old(zone), p)
              else zone == old(zone) && mem == old(mem)
    {
      hide Inv, Chains, ListsApart, Listed, SameExcept;
      freed := false;
      if ptr == NULL { return; }
      var block := ptr - HEADER_SIZE;
      if mem[block].magic != BUDDY_MAGIC || !mem[block].inUse {
        assert p in zone.live ==> LiveHeader(mem, memoryStart, p, zone.live[p]);
        return;
      }
      LiveIsPlaced(zone, p);
      assert LiveHeader(mem, memoryStart, p, zone.live[p]);
      FreeOrder(ptr, mem[block].order, p);
      freed := true;
    }
  }
}
