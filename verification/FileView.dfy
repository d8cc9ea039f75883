/** An ext2 file as bytes of the device, through direct and single-indirect block pointers. */
module FileView {
  import opened Dyadic
  import opened Wrappers
  import opened FlatBytes
  import opened Words

  const DIRECT: nat := 12

  /** The fields of an inode that reading uses: size in bytes and the fifteen block pointers. */
  datatype Inode = Inode(size: nat, block: seq<nat>)

  predicate ValidInode(inode: Inode) {
    inode.size < U32 && |inode.block| == 15 && forall i :: 0 <= i < 15 ==> inode.block[i] < U32
  }

  /** Block sizes are 1024 << k: positive multiples of four. */
  predicate ValidSize(bs: nat) {
    4 <= bs < U32 && bs % 4 == 0
  }

  /** The 32-bit byte position of block n. */
  function Position(n: nat, bs: nat): nat {
    (n * bs) % U32
  }

  /** Block n as read from a device that holds f, if it lies on the device. */
  function DiskBlock(f: seq<byte>, bs: nat, n: nat): (b: Option<seq<byte>>)
    ensures b.Some? ==> |b.value| == bs
  {
    var p := Position(n, bs);
    if p + bs <= |f| then Some(f[p..p + bs]) else None
  }

  /** A 32-bit little-endian number. */
  function Word(b: seq<byte>, i: nat): (w: nat)
    requires 4 * i + 4 <= |b|
    ensures w < U32
  {
    b[4 * i] as int + 0x100 * b[4 * i + 1] as int + 0x1_0000 * b[4 * i + 2] as int + 0x100_0000 * b[4 * i + 3] as int
  }

  /** The block number behind entry i of the file, 0 if it is not mapped. */
  function BlockNumber(f: seq<byte>, bs: nat, inode: Inode, i: nat): (n: nat)
    requires ValidSize(bs) && ValidInode(inode)
    ensures n < U32
  {
    if i < DIRECT then inode.block[i]
    else if i - DIRECT < bs / 4 && inode.block[DIRECT] != 0 && DiskBlock(f, bs, inode.block[DIRECT]).Some?
    then Word(DiskBlock(f, bs, inode.block[DIRECT]).value, i - DIRECT)
    else 0
  }

  /** The four bytes of f at p are the number n, the lowest byte first. */
  ghost predicate LowestFirst(f: seq<byte>, p: nat, n: nat) {
    && p + 4 <= |f| && n < 0x1_0000_0000
    && f[p] == n % 256 && f[p + 1] == n / 0x100 % 256 && f[p + 2] == n / 0x1_0000 % 256 && f[p + 3] == n / 0x100_0000
  }

  /** n is the number that the inode, or the block behind its entry 12, has for block i of the file. */
  ghost predicate EntryIs(f: seq<byte>, bs: nat, inode: Inode, i: nat, n: nat)
    requires bs > 0 && ValidInode(inode)
  {
    var at := (inode.block[12] * bs) % 0x1_0000_0000;
    if i < 12 then n == inode.block[i]
    else if i - 12 < bs / 4 && inode.block[12] != 0 && at + bs <= |f| then LowestFirst(f, at + 4 * (i - 12), n)
    else n == 0
  }

  lemma BlockNumberIs(f: seq<byte>, bs: nat, inode: Inode, i: nat)
    requires ValidSize(bs) && ValidInode(inode)
    ensures EntryIs(f, bs, inode, i, BlockNumber(f, bs, inode, i))
  {
    var p := Position(inode.block[12], bs);
    if i >= 12 && i - 12 < bs / 4 && inode.block[12] != 0 && p + bs <= |f| { WordIs(f, p, bs, i - 12); }
  }

  lemma WordIs(f: seq<byte>, p: nat, bs: nat, k: nat)
    requires p + bs <= |f| && 4 * k + 4 <= bs
    ensures LowestFirst(f, p + 4 * k, Word(f[p..p + bs], k))
  {
    var b := f[p..p + bs];
    FourBytes(b[4 * k], b[4 * k + 1], b[4 * k + 2], b[4 * k + 3]);
  }

  lemma FourBytes(a: byte, b: byte, c: byte, d: byte)
    ensures var n := a + 0x100 * b + 0x1_0000 * c + 0x100_0000 * d;
      n % 256 == a && n / 0x100 % 256 == b && n / 0x1_0000 % 256 == c && n / 0x100_0000 == d
  {
    var n := a + 0x100 * b + 0x1_0000 * c + 0x100_0000 * d;
    DivUnique(n, 0x100, b + 0x100 * c + 0x1_0000 * d, a);
    DivUnique(n / 0x100, 0x100, c + 0x100 * d, b);
    DivUnique(n, 0x1_0000, c + 0x100 * d, a + 0x100 * b);
    DivUnique(n / 0x1_0000, 0x100, d, c);
    DivUnique(n, 0x100_0000, d, a + 0x100 * b + 0x1_0000 * c);
  }

  lemma FourBytesOf(n: nat)
    ensures n == n % 256 + 0x100 * (n / 0x100 % 256) + 0x1_0000 * (n / 0x1_0000 % 256) + 0x100_0000 * (n / 0x100_0000)
  {
    var x, y := n / 0x100, n / 0x1_0000;
    DivUnique(n, 0x1_0000, x / 0x100, x % 0x100 * 0x100 + n % 0x100);
    DivUnique(n, 0x100_0000, y / 0x100, y % 0x100 * 0x1_0000 + n % 0x1_0000);
  }

  /** x is the byte of the device that the file has at position j. */
  ghost predicate OnDevice(f: seq<byte>, bs: nat, inode: Inode, j: nat, x: byte)
    requires bs > 0 && ValidInode(inode)
  {
    exists n: nat {:trigger EntryIs(f, bs, inode, j / bs, n)} ::
      && EntryIs(f, bs, inode, j / bs, n) && n != 0
      && var p := (n * bs) % 0x1_0000_0000; p + bs <= |f| && f[p + j % bs] == x
  }

  lemma ByteIsOnDevice(f: seq<byte>, bs: nat, inode: Inode, j: nat, x: byte)
    requires ValidSize(bs) && ValidInode(inode)
    ensures ByteAt(f, bs, inode, j) == Some(x) <==> OnDevice(f, bs, inode, j, x)
  {
    var n := BlockNumber(f, bs, inode, j / bs);
    BlockNumberIs(f, bs, inode, j / bs);
    hide BlockNumber, EntryIs;
    forall m: nat | EntryIs(f, bs, inode, j / bs, m) ensures m == n { OneEntry(f, bs, inode, j / bs, m, n); }
  }

  lemma OneEntry(f: seq<byte>, bs: nat, inode: Inode, i: nat, m: nat, n: nat)
    requires bs > 0 && ValidInode(inode) && EntryIs(f, bs, inode, i, m) && EntryIs(f, bs, inode, i, n)
    ensures m == n
  {
    FourBytesOf(m);
    FourBytesOf(n);
  }

  lemma AgreesOnDevice(f: seq<byte>, bs: nat, inode: Inode, offset: nat, r: seq<byte>)
    requires ValidSize(bs) && ValidInode(inode) && Agrees(f, bs, inode, offset, r)
    ensures forall t {:trigger r[t]} :: 0 <= t < |r| ==> OnDevice(f, bs, inode, offset + t, r[t])
  {
    hide ByteAt, OnDevice;
    forall t {:trigger r[t]} | 0 <= t < |r| ensures OnDevice(f, bs, inode, offset + t, r[t]) {
      assert AgreesAt(f, bs, inode, offset, r, t);
      ByteIsOnDevice(f, bs, inode, offset + t, r[t]);
    }
  }

  function FileBlock(f: seq<byte>, bs: nat, inode: Inode, i: nat): (b: Option<seq<byte>>)
    requires ValidSize(bs) && ValidInode(inode)
    ensures b.Some? ==> |b.value| == bs
  {
    var n := BlockNumber(f, bs, inode, i);
    if n == 0 then None else DiskBlock(f, bs, n)
  }

  /** The flat file: its byte at position j, if the block that holds it is mapped. */
  function ByteAt(f: seq<byte>, bs: nat, inode: Inode, j: nat): Option<byte>
    requires ValidSize(bs) && ValidInode(inode)
  {
    var b := FileBlock(f, bs, inode, j / bs);
    if b.Some? then Some(b.value[j % bs]) else None
  }

  /** r agrees with the flat file from position `offset` on. */
  ghost predicate Agrees(f: seq<byte>, bs: nat, inode: Inode, offset: nat, r: seq<byte>)
    requires ValidSize(bs) && ValidInode(inode)
  {
    forall t: nat :: AgreesAt(f, bs, inode, offset, r, t)
  }

  ghost predicate AgreesAt(f: seq<byte>, bs: nat, inode: Inode, offset: nat, r: seq<byte>, t: nat)
    requires ValidSize(bs) && ValidInode(inode)
  {
    t < |r| ==> ByteAt(f, bs, inode, offset + t) == Some(r[t])
  }

  /** r is what reading n bytes at `offset` gives: all n, or all up to the first unmapped block. */
  ghost predicate ReadsAs(f: seq<byte>, bs: nat, inode: Inode, offset: nat, n: nat, r: seq<byte>)
    requires ValidSize(bs) && ValidInode(inode)
  {
    && |r| <= n && Agrees(f, bs, inode, offset, r)
    && (|r| < n ==> ByteAt(f, bs, inode, offset + |r|).None?)
  }

  /** Position j of the file is byte o of its block i. */
  predicate Locates(bs: nat, i: nat, o: nat, j: nat)
    requires bs > 0
  {
    j / bs == i && j % bs == o
  }

  lemma NextBlockStarts(bs: nat, i: nat, o: nat, j: nat)
    requires bs > 0 && Locates(bs, i, o, j)
    ensures o < bs && Locates(bs, i + 1, 0, j + bs - o)
  {
    assert j == i * bs + o;
    assert (i + 1) * bs == i * bs + bs;
    DivUnique(j + bs - o, bs, i + 1, 0);
  }

  lemma SameBlock(bs: nat, i: nat, o: nat, j: nat, k: nat)
    requires bs > 0 && Locates(bs, i, o, j) && o + k < bs
    ensures Locates(bs, i, o + k, j + k)
  {
    assert j == i * bs + o;
    DivUnique(j + k, bs, i, o + k);
  }

  /** Bytes of the next block extend what agrees with the file. */
  lemma AgreesMore(f: seq<byte>, bs: nat, inode: Inode, offset: nat, r: seq<byte>, i: nat, o: nat, b: seq<byte>, n: nat)
    requires ValidSize(bs) && ValidInode(inode) && Agrees(f, bs, inode, offset, r)
    requires Locates(bs, i, o, offset + |r|) && FileBlock(f, bs, inode, i) == Some(b) && o + n <= bs
    ensures Agrees(f, bs, inode, offset, r + b[o..o + n])
  {
    var s := r + b[o..o + n];
    hide Locates, FileBlock;
    forall t: nat ensures AgreesAt(f, bs, inode, offset, s, t) {
      assert AgreesAt(f, bs, inode, offset, r, t);
      if |r| <= t < |s| {
        SameBlock(bs, i, o, offset + |r|, t - |r|);
        Located(f, bs, inode, i, o + t - |r|, offset + t);
      }
    }
  }

  lemma Located(f: seq<byte>, bs: nat, inode: Inode, i: nat, o: nat, j: nat)
    requires ValidSize(bs) && ValidInode(inode) && Locates(bs, i, o, j)
    ensures o < bs
    ensures ByteAt(f, bs, inode, j) == var b := FileBlock(f, bs, inode, i); if b.Some? then Some(b.value[o]) else None
  {
  }

  /** How many bytes read_file_data goes for: the clamp to the end of the file, on 32 bits. */
  function Effective(inode: Inode, offset: nat, size: nat): (n: nat)
    ensures n <= size || n <= inode.size
  {
    if offset >= inode.size then 0
    else if (offset + size) % U32 > inode.size then inode.size - offset
    else size
  }

  // ---- theorems ----

  /** There is only one result. */
  lemma ReadIsDetermined(f: seq<byte>, bs: nat, inode: Inode, offset: nat, n: nat, r: seq<byte>, s: seq<byte>)
    requires ValidSize(bs) && ValidInode(inode)
    requires ReadsAs(f, bs, inode, offset, n, r) && ReadsAs(f, bs, inode, offset, n, s)
    ensures r == s
  {
    hide ByteAt;
    assert AgreesAt(f, bs, inode, offset, s, |r|) && AgreesAt(f, bs, inode, offset, r, |s|);
    forall t: nat | t < |r| ensures r[t] == s[t] {
      assert AgreesAt(f, bs, inode, offset, r, t) && AgreesAt(f, bs, inode, offset, s, t);
    }
  }

  /** With every block of the range mapped, all of it is read. */
  lemma MappedRangeIsRead(f: seq<byte>, bs: nat, inode: Inode, offset: nat, n: nat, r: seq<byte>)
    requires ValidSize(bs) && ValidInode(inode) && ReadsAs(f, bs, inode, offset, n, r)
    requires forall j :: offset <= j < offset + n ==> ByteAt(f, bs, inode, j).Some?
    ensures |r| == n && forall t :: 0 <= t < n ==> Some(r[t]) == ByteAt(f, bs, inode, offset + t)
  {
    forall t: nat | t < |r| ensures Some(r[t]) == ByteAt(f, bs, inode, offset + t) {
      assert AgreesAt(f, bs, inode, offset, r, t);
    }
  }

  /** Two adjacent ranges make one larger range. */
  lemma ReadsConcatenate(f: seq<byte>, bs: nat, inode: Inode, offset: nat, n: nat, m: nat, r: seq<byte>, s: seq<byte>)
    requires ValidSize(bs) && ValidInode(inode)
    requires ReadsAs(f, bs, inode, offset, n, r) && |r| == n
    requires ReadsAs(f, bs, inode, offset + n, m, s)
    ensures ReadsAs(f, bs, inode, offset, n + m, r + s)
  {
    forall t: nat ensures AgreesAt(f, bs, inode, offset, r + s, t) {
      assert AgreesAt(f, bs, inode, offset, r, t);
      if t >= n { assert AgreesAt(f, bs, inode, offset + n, s, t - n); }
    }
  }

  /** Two adjacent calls, the first of which delivers all it was asked for, deliver what one call for both
      ranges does; exactly unless the second starts at the end of the file and the sum wraps. */
  lemma CallsConcatenate(f: seq<byte>, bs: nat, inode: Inode, offset: nat, n: nat, m: nat, r: seq<byte>, s: seq<byte>)
    requires ValidSize(bs) && ValidInode(inode) && n + m < U32 && offset + n < U32
    requires ReadsAs(f, bs, inode, offset, Effective(inode, offset, n), r) && |r| == n
    requires ReadsAs(f, bs, inode, offset + n, Effective(inode, offset + n, m), s)
    ensures var exact := n == 0 || m == 0 || offset + n < inode.size || offset + n + m < U32;
      && (Effective(inode, offset, n + m) == n + Effective(inode, offset + n, m) <==> exact)
      && (exact ==> ReadsAs(f, bs, inode, offset, Effective(inode, offset, n + m), r + s))
  {
    assert |r| <= Effective(inode, offset, n);
    hide ReadsAs;
    ReadsConcatenate(f, bs, inode, offset, n, Effective(inode, offset + n, m), r, s);
  }

  /** The range asked for is cut at the end of the file exactly when offset + size does not wrap; a
      request that wraps is not cut at all. */
  lemma ClampIsExactIff(inode: Inode, offset: nat, size: nat)
    requires ValidInode(inode) && offset < inode.size && size < U32
    ensures Effective(inode, offset, size) == (if offset + size <= inode.size then size else inode.size - offset)
      <==> offset + size < U32
    ensures offset + size >= U32 ==> Effective(inode, offset, size) == size
  {
  }

  /** The largest size, at byte 1 of a file of 100 bytes: the read goes for 4 GB instead of 99 bytes. */
  lemma LargestReadIsNotCut(inode: Inode)
    requires ValidInode(inode) && inode.size == 100
    ensures Effective(inode, 1, 0xFFFF_FFFF) == 0xFFFF_FFFF
  {
  }

  /** The block whose byte position is that of block n on 32 bits. */
  function BlockThere(n: nat, bs: nat): (there: nat)
    requires bs > 0
  {
    if Quotient(U32, bs) == 0 then n else n % Quotient(U32, bs)
  }

  /** What is read as block n, on a device made of blocks of the file system's size: the block whose number
      is what the 32-bit position leaves of n. This is block n exactly if its position does not wrap. */
  lemma DiskBlockIsBlock(blocks: seq<seq<byte>>, k: nat, n: nat)
    requires 1024 * Pow2(k) < U32 && Blocks(blocks, 1024 * Pow2(k)) && n < |blocks|
    ensures var bs := 1024 * Pow2(k); var there := BlockThere(n, bs);
      && there < |blocks| && DiskBlock(Flat(blocks), bs, n) == Some(blocks[there])
      && (there == n <==> n * bs < U32)
  {
    var bs := 1024 * Pow2(k);
    BlockSizeDivides(k);
    hide Position, Flat, Blocks, Pow2, BlockThere;
    PositionIs(n, bs);
    FlatBlock(blocks, bs, BlockThere(n, bs));
  }

  lemma BlockSizeDivides(k: nat)
    requires 1024 * Pow2(k) < U32
    ensures var bs := 1024 * Pow2(k); U32 == Times(Quotient(U32, bs), bs) && Quotient(U32, bs) > 0
  {
    ThirtyTwo();
    TenPowers();
    Pow2Sum(10, k);
    if k >= 22 { Pow2Monotone(32, 10 + k); }
    Pow2Sum(22 - k, 10 + k);
    MultipleOf(Pow2(22 - k), Pow2(10 + k));
    hide Pow2;
  }

  lemma TenPowers()
    ensures Pow2(10) == 1024
  {
    Pow2Sum(5, 5);
    Pow2Sum(3, 2);
    Pow2Step(0);
    Pow2Step(1);
    Pow2Step(2);
  }

  lemma PositionIs(n: nat, bs: nat)
    requires bs > 0 && U32 == Times(Quotient(U32, bs), bs) && Quotient(U32, bs) > 0
    ensures var there := BlockThere(n, bs);
      there <= n && Position(n, bs) == there * bs && (there == n <==> n * bs < U32)
  {
    var q := Quotient(U32, bs);
    hide Quotient;
    var a, b := n / q, n % q;
    assert n == a * q + b;
    PositionSplit(a, b, q, bs);
    if n * bs < U32 && n >= q { MulMonotone(q, n, bs); }
  }

  lemma PositionSplit(a: nat, b: nat, q: nat, bs: nat)
    requires bs > 0 && U32 == q * bs && b < q
    ensures (a * q + b) * bs == a * U32 + b * bs && b * bs < U32
    ensures ((a * q + b) * bs) % U32 == b * bs
  {
    assert (a * q + b) * bs == a * (q * bs) + b * bs;
    MulMonotone(b + 1, q, bs);
    assert (b + 1) * bs == b * bs + bs;
    DivUnique((a * q + b) * bs, U32, a, b * bs);
  }

  /** Block sizes of ext2: 1024 times a power of two. */
  lemma BlockSizeIsValid(k: nat)
    requires 1024 * Pow2(k) < U32
    ensures ValidSize(1024 * Pow2(k))
  {
    var n := Pow2(k);
    hide Pow2;
    assert 1024 * n == 4 * (256 * n);
  }
}
