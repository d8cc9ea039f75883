/** The byte-addressed view of a sequence of equally long blocks. */
module FlatBytes {
  import opened Dyadic

  type byte = x: int | 0 <= x < 256

  ghost predicate Blocks(blocks: seq<seq<byte>>, size: nat) {
    size > 0 && forall i :: 0 <= i < |blocks| ==> |blocks[i]| == size
  }

  /** All bytes of the device, in order. */
  function Flat(blocks: seq<seq<byte>>): seq<byte> {
    if blocks == [] then [] else blocks[0] + Flat(blocks[1..])
  }

  /** f with the bytes from position p on replaced by d. */
  function Patch(f: seq<byte>, p: nat, d: seq<byte>): (r: seq<byte>)
    requires p + |d| <= |f|
    ensures |r| == |f|
  {
    f[..p] + d + f[p + |d|..]
  }

  lemma {:induction false} FlatLength(blocks: seq<seq<byte>>, size: nat)
    requires Blocks(blocks, size)
    ensures |Flat(blocks)| == |blocks| * size
  {
    if blocks != [] {
      FlatLength(blocks[1..], size);
      assert |blocks| * size == size + (|blocks| - 1) * size;
    }
  }

  /** A block is the slice of the device at its index times the block size. */
  lemma {:induction false} FlatBlock(blocks: seq<seq<byte>>, size: nat, i: nat)
    requires Blocks(blocks, size) && i < |blocks|
    ensures i * size + size <= |Flat(blocks)| == |blocks| * size
    ensures Flat(blocks)[i * size..i * size + size] == blocks[i]
  {
    FlatLength(blocks, size);
    MulMonotone(i + 1, |blocks|, size);
    assert (i + 1) * size == i * size + size;
    if i > 0 {
      var at := (i - 1) * size;
      FlatBlock(blocks[1..], size, i - 1);
      assert i * size == at + size;
      assert Flat(blocks)[at + size..at + size + size] == Flat(blocks[1..])[at..at + size];
    }
  }

  /** Replacing a block replaces its slice. */
  lemma {:induction false} FlatUpdate(blocks: seq<seq<byte>>, size: nat, i: nat, b: seq<byte>)
    requires Blocks(blocks, size) && i < |blocks| && |b| == size
    ensures Blocks(blocks[i := b], size)
    ensures i * size + size <= |Flat(blocks)|
    ensures Flat(blocks[i := b]) == Patch(Flat(blocks), i * size, b)
  {
    FlatBlock(blocks, size, i);
    var rest := Flat(blocks[1..]);
    if i == 0 {
      assert blocks[i := b][1..] == blocks[1..];
      assert Flat(blocks)[size..] == rest;
    } else {
      var at := (i - 1) * size;
      FlatUpdate(blocks[1..], size, i - 1, b);
      assert i * size == at + size;
      assert blocks[i := b][1..] == blocks[1..][i - 1 := b];
      assert Flat(blocks)[..at + size] == blocks[0] + rest[..at];
      assert Flat(blocks)[at + size + size..] == rest[at + size..];
      assert blocks[0] + Patch(rest, at, b) == Patch(Flat(blocks), at + size, b);
    }
  }

  /** A slice inside a block. */
  lemma SliceInBlock(blocks: seq<seq<byte>>, size: nat, i: nat, from: nat, n: nat)
    requires Blocks(blocks, size) && i < |blocks| && from + n <= size
    ensures i * size + from + n <= |Flat(blocks)|
    ensures Flat(blocks)[i * size + from..i * size + from + n] == blocks[i][from..from + n]
  {
    FlatBlock(blocks, size, i);
    SubSlice(Flat(blocks), i * size, size, from, n);
  }

  lemma SubSlice(f: seq<byte>, at: nat, size: nat, from: nat, n: nat)
    requires at + size <= |f| && from + n <= size
    ensures f[at..at + size][from..from + n] == f[at + from..at + from + n]
  {
    var a, b := f[at..at + size][from..from + n], f[at + from..at + from + n];
    assert forall k :: 0 <= k < n ==> a[k] == b[k];
  }

  /** Changing part of a block changes that part of the device. */
  lemma PatchInBlock(blocks: seq<seq<byte>>, size: nat, i: nat, from: nat, d: seq<byte>)
    requires Blocks(blocks, size) && i < |blocks| && from + |d| <= size
    ensures i * size + from + |d| <= |Flat(blocks)|
    ensures Blocks(blocks[i := Patch(blocks[i], from, d)], size)
    ensures Flat(blocks[i := Patch(blocks[i], from, d)]) == Patch(Flat(blocks), i * size + from, d)
  {
    var f, at, b := Flat(blocks), i * size, Patch(blocks[i], from, d);
    FlatBlock(blocks, size, i);
    FlatUpdate(blocks, size, i, b);
    PatchNested(f, at, size, from, d);
  }

  lemma PatchNested(f: seq<byte>, at: nat, size: nat, from: nat, d: seq<byte>)
    requires at + size <= |f| && from + |d| <= size
    ensures Patch(f, at, Patch(f[at..at + size], from, d)) == Patch(f, at + from, d)
  {
  }

  /** Two adjacent writes make one. */
  lemma PatchPatch(f: seq<byte>, p: nat, a: seq<byte>, b: seq<byte>)
    requires p + |a| + |b| <= |f|
    ensures Patch(Patch(f, p, a), p + |a|, b) == Patch(f, p, a + b)
  {
  }

  /** A buffer that was `was` holds the n bytes of f from position p on, at its start. */
  ghost predicate Holds(buffer: seq<byte>, was: seq<byte>, f: seq<byte>, p: nat, n: nat) {
    if n == 0 then buffer == was
    else n <= |was| && p + n <= |f| && buffer == Patch(was, 0, f[p..p + n])
  }

  lemma HoldsNothing(was: seq<byte>, f: seq<byte>, p: nat)
    ensures Holds(was, was, f, p, 0)
  {
  }

  lemma HoldsLength(buffer: seq<byte>, was: seq<byte>, f: seq<byte>, p: nat, n: nat)
    requires Holds(buffer, was, f, p, n)
    ensures |buffer| == |was|
  {
  }

  lemma HoldsInRange(buffer: seq<byte>, was: seq<byte>, f: seq<byte>, p: nat, n: nat)
    requires Holds(buffer, was, f, p, n) && n > 0
    ensures p + n <= |f|
  {
  }

  /** Appending the next slice to what a buffer holds. */
  lemma HoldsMore(buffer: seq<byte>, was: seq<byte>, f: seq<byte>, p: nat, n: nat, m: nat)
    requires Holds(buffer, was, f, p, n) && n + m <= |was| && p + n + m <= |f|
    ensures Holds(Patch(buffer, n, f[p + n..p + n + m]), was, f, p, n + m)
  {
    if n == 0 {
      assert m == 0 ==> Patch(buffer, 0, f[p..p]) == buffer;
    } else {
      assert f[p..p + n] + f[p + n..p + n + m] == f[p..p + n + m];
      PatchPatch(was, 0, f[p..p + n], f[p + n..p + n + m]);
    }
  }

  /** A device that held f now holds d from position p on, and f elsewhere. */
  ghost predicate Written(now: seq<byte>, f: seq<byte>, p: nat, d: seq<byte>) {
    if d == [] then now == f else p + |d| <= |f| && now == Patch(f, p, d)
  }

  lemma WrittenNothing(f: seq<byte>, p: nat, d: seq<byte>)
    requires d == []
    ensures Written(f, f, p, d)
  {
  }

  lemma WrittenInRange(now: seq<byte>, f: seq<byte>, p: nat, d: seq<byte>)
    requires Written(now, f, p, d)
    ensures |now| == |f| && (d != [] ==> p + |d| <= |f|)
  {
  }

  lemma WrittenMore(now: seq<byte>, f: seq<byte>, p: nat, d: seq<byte>, e: seq<byte>)
    requires Written(now, f, p, d) && p + |d| + |e| <= |f|
    ensures |now| == |f| && Written(Patch(now, p + |d|, e), f, p, d + e)
  {
    if d == [] {
      assert d + e == e;
    } else {
      PatchPatch(f, p, d, e);
    }
  }
}
