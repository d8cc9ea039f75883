/** Byte reads and writes at any position of a device that moves whole blocks. */
module BlockDevice {
  import opened Dyadic
  import opened FlatBytes
  import opened Words

  /** Size of the block buffer on the stack. */
  const TEMP_BLOCK: nat := 1024

  datatype Status = Ok | Failure | ErrorParam | ErrorMemory

  class BlockDevice {
    const blockSize: nat
    var blocks: seq<seq<byte>>
    /** Block transfers so far; transfer number t fails if faults(t). */
    var calls: nat
    const faults: nat -> bool

    /** A device has fewer than 2^32 blocks. */
    ghost predicate Valid()
      reads this
    {
      blockSize > 0 && Blocks(blocks, blockSize) && |blocks| < U32
    }

    ghost function Contents(): seq<byte>
      reads this
    {
      Flat(blocks)
    }

    /** No transfer from number `from` to now failed. */
    ghost predicate NoFault(from: nat)
      reads this
    {
      forall t :: from <= t < calls ==> !faults(t)
    }

    constructor (size: nat, initial: seq<seq<byte>>, faults: nat -> bool)
      requires |initial| < U32 && forall i :: 0 <= i < |initial| ==> |initial[i]| == if size == 0 then 512 else size
      ensures Valid() && blocks == initial && this.faults == faults
      ensures blockSize == if size == 0 then 512 else size
    {
      blockSize := if size == 0 then 512 else size;
      blocks := initial;
      calls := 0;
      this.faults := faults;
    }

    /** read_blocks(lba, 1, into + at) of the underlying driver. */
    method ReadBlock(lba: nat, into: array<byte>, at: nat) returns (ok: bool)
      requires Valid() && at + blockSize <= into.Length
      modifies `calls, into
      ensures calls == old(calls) + 1
      ensures ok <==> lba < |blocks| && !faults(old(calls))
      ensures into[..] == if ok then Patch(old(into[..]), at, blocks[lba]) else old(into[..])
    {
      ok := lba < |blocks| && !faults(calls);
      calls := calls + 1;
      if ok { CopyTo(into, at, blocks[lba]); }
    }

    /** write_blocks(lba, 1, data). */
    method WriteBlock(lba: nat, data: seq<byte>) returns (ok: bool)
      requires Valid() && |data| == blockSize
      modifies `calls, `blocks
      ensures Valid() && calls == old(calls) + 1
      ensures ok <==> lba < |old(blocks)| && !faults(old(calls))
      ensures blocks == if ok then old(blocks)[lba := data] else old(blocks)
    {
      ok := lba < |blocks| && !faults(calls);
      if ok { blocks := blocks[lba := data]; }
      calls := calls + 1;
    }

    /** BlockDevice::read. Large blocks are staged in a buffer of their size from the heap (heapOk says whether
        kmalloc succeeds), small ones in a buffer of TEMP_BLOCK bytes on the stack. */
    method Read(pos: nat, buffer: array?<byte>, size: nat, heapOk: bool)
      returns (s: Status, ghost done: nat)
      requires Valid() && pos < U32 && size < U32
      requires buffer != null ==> size <= buffer.Length
      modifies `calls, buffer
      ensures calls >= old(calls)
      ensures s == ErrorParam <==> buffer == null || size == 0
      ensures s == ErrorMemory <==> buffer != null && size > 0 && blockSize > TEMP_BLOCK && !heapOk
      ensures s == ErrorParam || s == ErrorMemory ==> calls == old(calls) && (buffer != null ==> buffer[..] == old(buffer[..]))
      ensures s == Ok || s == Failure ==> (s == Ok <==> !Blocked(pos, size, old(calls)))
      ensures s == Ok ==> done == size
      ensures s == Failure ==> done < size
      ensures s == Ok || s == Failure ==> Holds(buffer[..], old(buffer[..]), Contents(), pos, done)
    {
      done := 0;
      if buffer == null || size == 0 { return ErrorParam, 0; }
      if blockSize > TEMP_BLOCK {
        if !heapOk { return ErrorMemory, 0; }
        var temp := new byte[blockSize](_ => 0);
        s, done := ReadRange(pos, buffer, size, temp);
        return;
      }
      var tempBlock := new byte[TEMP_BLOCK](_ => 0);
      s, done := ReadRange(pos, buffer, size, tempBlock);
    }

    /** Block lba starts at byte position base of the device. */
    predicate Starts(lba: nat, base: nat) {
      base == lba * blockSize
    }

    /** Reading past the end of the device needs a block that does not exist. */
    lemma PastTheEnd(lba: nat, base: nat)
      requires Valid() && Starts(lba, base) && lba >= |blocks|
      ensures |Contents()| <= base
    {
      FlatLength(blocks, blockSize);
      MulMonotone(|blocks|, lba, blockSize);
    }

    /** Part of a block is part of the device. */
    lemma PartAt(lba: nat, base: nat, offset: nat, n: nat)
      requires Valid() && Starts(lba, base) && lba < |blocks| && offset + n <= blockSize
      ensures |blocks[lba]| == blockSize && base + offset + n <= |Contents()|
      ensures Contents()[base + offset..base + offset + n] == blocks[lba][offset..offset + n]
    {
      SliceInBlock(blocks, blockSize, lba, offset, n);
    }

    lemma BlockAt(lba: nat, base: nat)
      requires Valid() && Starts(lba, base) && lba < |blocks|
      ensures |blocks[lba]| == blockSize && base + blockSize <= |Contents()|
      ensures Contents()[base..base + blockSize] == blocks[lba]
    {
      FlatBlock(blocks, blockSize, lba);
    }

    /** Data that goes into a block extends what was written. */
    lemma PatchAt(lba: nat, base: nat, offset: nat, data: seq<byte>, pos: nat, f: seq<byte>, d: seq<byte>)
      requires Valid() && Starts(lba, base) && lba < |blocks| && offset + |data| <= blockSize
      requires base + offset == pos + |d| && Written(Contents(), f, pos, d)
      ensures |blocks[lba]| == blockSize && |Contents()| == |f|
      ensures var b := blocks[lba := Patch(blocks[lba], offset, data)];
        Blocks(b, blockSize) && Written(Flat(b), f, pos, d + data)
    {
      PatchInBlock(blocks, blockSize, lba, offset, data);
      hide Flat, Written, Patch, Blocks;
      WrittenInRange(Contents(), f, pos, d);
      WrittenMore(Contents(), f, pos, d, data);
    }

    /** The staging buffer holds a block and is not the caller's buffer. */
    predicate Stages(temp: array<byte>, buffer: array<byte>) {
      temp.Length >= blockSize && temp != buffer
    }

    /** One staged transfer of a read: bytes [offset, offset + chunk) of a block go to position `at`. */
    method ReadPart(lba: nat, offset: nat, chunk: nat, buffer: array<byte>, at: nat, temp: array<byte>,
          ghost base: nat, ghost pos: nat, ghost was: seq<byte>)
      returns (ok: bool)
      requires Valid() && Starts(lba, base) && base + offset == pos + at && Stages(temp, buffer)
      requires offset + chunk <= blockSize && at + chunk <= buffer.Length
      requires Holds(buffer[..], was, Contents(), pos, at)
      modifies `calls, buffer, temp
      ensures calls == old(calls) + 1
      ensures !ok ==> buffer[..] == old(buffer[..]) && (faults(old(calls)) || |Contents()| <= base)
      ensures ok ==> lba < |blocks| && !faults(old(calls)) && Holds(buffer[..], was, Contents(), pos, at + chunk)
    {
      ghost var t := temp[..];
      HoldsLength(buffer[..], was, Contents(), pos, at);
      hide Holds, Flat, Patch, Blocks, Starts;
      ok := ReadBlock(lba, temp, 0);
      if ok {
        PartAt(lba, base, offset, chunk);
        StagedMore(Contents(), blocks[lba], offset, chunk, t, buffer[..], was, pos, at);
        CopyTo(buffer, at, temp[offset..offset + chunk]);
      } else if lba >= |blocks| {
        PastTheEnd(lba, base);
      }
    }

    /** A whole block straight into the caller's buffer. */
    method ReadDirect(lba: nat, buffer: array<byte>, at: nat, ghost pos: nat, ghost was: seq<byte>) returns (ok: bool)
      requires Valid() && Starts(lba, pos + at) && at + blockSize <= buffer.Length
      requires Holds(buffer[..], was, Contents(), pos, at)
      modifies `calls, buffer
      ensures calls == old(calls) + 1
      ensures !ok ==> buffer[..] == old(buffer[..]) && (faults(old(calls)) || |Contents()| <= pos + at)
      ensures ok ==> lba < |blocks| && !faults(old(calls)) && Holds(buffer[..], was, Contents(), pos, at + blockSize)
    {
      HoldsLength(buffer[..], was, Contents(), pos, at);
      hide Holds, Flat, Patch, Blocks, Starts;
      ghost var g := buffer[..];
      ok := ReadBlock(lba, buffer, at);
      if ok {
        BlockAt(lba, pos + at);
        DirectMore(Contents(), blocks[lba], g, was, pos, at);
      } else if lba >= |blocks| {
        PastTheEnd(lba, pos + at);
      }
    }

    /** A transfer of [pos, pos + size) has dealt with all but `total` bytes, without a fault, and goes
        on at the start of block lba. */
    ghost predicate Underway(pos: nat, size: nat, total: nat, lba: nat, from: nat)
      reads this
    {
      && Valid() && from <= calls && NoFault(from) && total <= size
      && (total > 0 ==> Starts(lba, pos + size - total))
      && (total < size ==> pos + size - total <= |Contents()|)
    }

    /** The reason for a failure: the range leaves the device, or a transfer failed. */
    ghost predicate Blocked(pos: nat, size: nat, from: nat)
      reads this
    {
      pos + size > |Contents()| || !NoFault(from)
    }

    /** The transfer with a given staging buffer: the end of a first block, whole blocks, the start of a last
        one. */
    method ReadRange(pos: nat, buffer: array<byte>, size: nat, temp: array<byte>) returns (s: Status, ghost done: nat)
      requires Valid() && pos < U32 && size < U32 && Stages(temp, buffer)
      requires 0 < size <= buffer.Length
      modifies `calls, buffer, temp
      ensures calls >= old(calls) && (s == Ok || s == Failure)
      ensures s == Ok <==> !Blocked(pos, size, old(calls))
      ensures done <= size && (s == Ok <==> done == size)
      ensures Holds(buffer[..], old(buffer[..]), Contents(), pos, done)
    {
      hide Starts, Holds, Flat, Blocks;
      var lba: nat, offset: nat, total: nat := FirstLba(pos), FirstOffset(pos), size;
      ghost var was := buffer[..];
      FirstBlock(pos);
      HoldsNothing(was, Contents(), pos);
      if offset != 0 {
        var chunk := blockSize - offset;
        if chunk > total { chunk := total; }
        var ok := ReadPart(lba, offset, chunk, buffer, 0, temp, pos - offset, pos, was);
        if !ok { return Failure, 0; }
        total := total - chunk;
        NextBlock(lba, pos - offset);
        HoldsInRange(buffer[..], was, Contents(), pos, chunk);
        lba := NextLba(lba);
      }
      s, lba, total := ReadWhole(pos, buffer, size, lba, total, was, old(calls));
      if s == Failure { return Failure, size - total; }
      if total != 0 {
        var ok := ReadPart(lba, 0, total, buffer, size - total, temp, pos + size - total, pos, was);
        if !ok { return Failure, size - total; }
      }
      HoldsInRange(buffer[..], was, Contents(), pos, size);
      return Ok, size;
    }

    /** The loop over whole blocks. */
    method ReadWhole(pos: nat, buffer: array<byte>, size: nat, lba0: nat, total0: nat,
          ghost was: seq<byte>, ghost from: nat)
      returns (s: Status, lba: nat, total: nat)
      requires 0 < size <= buffer.Length && Underway(pos, size, total0, lba0, from)
      requires Holds(buffer[..], was, Contents(), pos, size - total0)
      modifies `calls, buffer
      ensures calls >= old(calls) && (s == Ok || s == Failure)
      ensures s == Ok ==> total < blockSize && Underway(pos, size, total, lba, from)
      ensures s == Failure ==> 0 < total && Blocked(pos, size, from)
      ensures total <= size && Holds(buffer[..], was, Contents(), pos, size - total)
    {
      hide Starts, Holds, Flat, Blocks;
      s, lba, total := Ok, lba0, total0;
      while total >= blockSize
        invariant calls >= old(calls) && Underway(pos, size, total, lba, from)
        invariant Holds(buffer[..], was, Contents(), pos, size - total)
      {
        ghost var base := pos + size - total;
        var ok := ReadDirect(lba, buffer, size - total, pos, was);
        if !ok { return Failure, lba, total; }
        total := total - blockSize;
        NextBlock(lba, base);
        HoldsInRange(buffer[..], was, Contents(), pos, size - total);
        lba := NextLba(lba);
      }
    }

    /** BlockDevice::write. On a failure the first `done` bytes have been written, and nothing else. */
    method Write(pos: nat, buffer: array?<byte>, size: nat, heapOk: bool)
      returns (s: Status, ghost done: nat)
      requires Valid() && pos < U32 && size < U32
      requires buffer != null ==> size <= buffer.Length
      modifies `calls, `blocks
      ensures Valid() && |Contents()| == old(|Contents()|)
      ensures calls >= old(calls)
      ensures s == ErrorParam <==> buffer == null || size == 0
      ensures s == ErrorMemory <==> buffer != null && size > 0 && blockSize > TEMP_BLOCK && !heapOk
      ensures s == ErrorParam || s == ErrorMemory ==> calls == old(calls) && blocks == old(blocks)
      ensures s == Ok || s == Failure ==> (s == Ok <==> !Blocked(pos, size, old(calls)))
      ensures s == Ok ==> done == size
      ensures s == Failure ==> done < size
      ensures s == Ok || s == Failure ==> Written(Contents(), old(Contents()), pos, buffer[..done])
    {
      done := 0;
      if buffer == null || size == 0 { return ErrorParam, 0; }
      if blockSize > TEMP_BLOCK {
        if !heapOk { return ErrorMemory, 0; }
        var temp := new byte[blockSize](_ => 0);
        s, done := WriteRange(pos, buffer, size, temp);
        return;
      }
      var tempBlock := new byte[TEMP_BLOCK](_ => 0);
      s, done := WriteRange(pos, buffer, size, tempBlock);
    }

    /** What a read sees after a write: the written bytes where the two overlap, the old ones elsewhere. */
    method WriteThenRead(p: nat, b: array<byte>, n: nat, q: nat, c: array<byte>, m: nat, heapOk: bool)
      returns (ok: bool)
      requires Valid() && p < U32 && q < U32 && 0 < n < U32 && 0 < m < U32
      requires n <= b.Length && m <= c.Length && b != c
      modifies `calls, `blocks, c
      ensures Valid() && |Contents()| == old(|Contents()|)
      ensures ok ==> p + n <= |Contents()| && q + m <= |Contents()|
      ensures ok ==> forall i :: 0 <= i < m ==>
        c[i] == if p <= q + i < p + n then b[q + i - p] else old(Contents())[q + i]
      ensures ok && p == q && m == n ==> c[..n] == b[..n]
      ensures ok <==> p + n <= |Contents()| && q + m <= |Contents()| && NoFault(old(calls))
                      && (blockSize > TEMP_BLOCK ==> heapOk)
    {
      hide Flat, Blocks;
      ghost var f, was := Contents(), c[..];
      var w, done := Write(p, b, n, heapOk);
      if w != Ok { return false; }
      assert b[..done] == b[..n];
      ghost var g := Contents();
      var r, got := Read(q, c, m, heapOk);
      if r != Ok { return false; }
      SeenAfterWrite(c[..], was, g, f, p, b[..n], q, m);
      return true;
    }

    /** Read, change, write back: data goes to [offset, offset + |data|) of block lba. */
    method WriteMerged(lba: nat, offset: nat, data: seq<byte>, ghost base: nat, ghost pos: nat,
          ghost f: seq<byte>, ghost d: seq<byte>, temp: array<byte>)
      returns (ok: bool)
      requires Valid() && Starts(lba, base) && base + offset == pos + |d| && offset + |data| <= blockSize
      requires Written(Contents(), f, pos, d) && temp.Length >= blockSize
      modifies `calls, `blocks, temp
      ensures Valid() && old(calls) <= calls
      ensures !ok ==> blocks == old(blocks) && (!NoFault(old(calls)) || |Contents()| <= base)
      ensures ok ==> lba < |blocks| && NoFault(old(calls)) && Written(Contents(), f, pos, d + data)
    {
      hide Written, Flat, Patch, Blocks, Starts;
      ghost var t := temp[..];
      ok := ReadBlock(lba, temp, 0);
      if ok {
        PatchAt(lba, base, offset, data, pos, f, d);
        Merged(t, blocks[lba], offset, data);
        CopyTo(temp, offset, data);
        ok := WriteBlock(lba, temp[..blockSize]);
      } else if lba >= |blocks| {
        PastTheEnd(lba, base);
      }
    }

    /** A whole block straight from the caller's buffer. */
    method WriteWhole(lba: nat, data: seq<byte>, ghost base: nat, ghost pos: nat,
          ghost f: seq<byte>, ghost d: seq<byte>)
      returns (ok: bool)
      requires Valid() && Starts(lba, base) && base == pos + |d| && |data| == blockSize
      requires Written(Contents(), f, pos, d)
      modifies `calls, `blocks
      ensures Valid() && old(calls) <= calls
      ensures !ok ==> blocks == old(blocks) && (!NoFault(old(calls)) || |Contents()| <= base)
      ensures ok ==> lba < |blocks| && NoFault(old(calls)) && Written(Contents(), f, pos, d + data)
    {
      hide Written, Flat, Blocks, Starts;
      if lba < |blocks| {
        PatchAt(lba, base, 0, data, pos, f, d);
        assert Patch(blocks[lba], 0, data) == data;
      } else {
        PastTheEnd(lba, base);
      }
      ok := WriteBlock(lba, data);
    }

    /** The transfer with a given staging buffer. */
    method WriteRange(pos: nat, buffer: array<byte>, size: nat, temp: array<byte>) returns (s: Status, ghost done: nat)
      requires Valid() && pos < U32 && size < U32 && Stages(temp, buffer)
      requires 0 < size <= buffer.Length
      modifies `calls, `blocks, temp
      ensures Valid() && |Contents()| == old(|Contents()|)
      ensures calls >= old(calls) && (s == Ok || s == Failure)
      ensures s == Ok <==> !Blocked(pos, size, old(calls))
      ensures done <= size && (s == Ok <==> done == size)
      ensures Written(Contents(), old(Contents()), pos, buffer[..done])
    {
      hide Starts, Written, Flat, Blocks, NoFault;
      var lba: nat, total: nat;
      ghost var f := Contents();
      s, lba, total := WriteFirst(pos, buffer, size, temp);
      done := size - total;
      WrittenInRange(Contents(), f, pos, buffer[..done]);
      if s == Failure { return Failure, done; }
      s, lba, total := WriteWholes(pos, buffer, size, lba, total, f, old(calls));
      done := size - total;
      WrittenInRange(Contents(), f, pos, buffer[..done]);
      if s == Failure { return Failure, done; }
      if total != 0 {
        s := WriteLast(pos, buffer, size, lba, total, f, old(calls), temp);
        if s == Failure { return Failure, done; }
        done := size;
      }
      WrittenInRange(Contents(), f, pos, buffer[..size]);
    }

    /** The first block, if the range starts inside one. */
    method WriteFirst(pos: nat, buffer: array<byte>, size: nat, temp: array<byte>)
      returns (s: Status, lba: nat, total: nat)
      requires Valid() && pos < U32 && size < U32 && Stages(temp, buffer)
      requires 0 < size <= buffer.Length
      modifies `calls, `blocks, temp
      ensures Valid() && calls >= old(calls) && (s == Ok || s == Failure) && total <= size
      ensures s == Ok ==> Underway(pos, size, total, lba, old(calls))
      ensures s == Failure ==> 0 < total && Blocked(pos, size, old(calls))
      ensures Written(Contents(), old(Contents()), pos, buffer[..size - total])
    {
      hide Starts, Written, Flat, Blocks;
      s, lba, total := Ok, FirstLba(pos), size;
      var offset: nat := FirstOffset(pos);
      ghost var f := Contents();
      FirstBlock(pos);
      WrittenNothing(f, pos, buffer[..0]);
      if offset != 0 {
        var chunk := blockSize - offset;
        if chunk > total { chunk := total; }
        var ok := WriteMerged(lba, offset, buffer[..chunk], pos - offset, pos, f, buffer[..0], temp);
        if !ok { return Failure, lba, total; }
        assert buffer[..0] + buffer[..chunk] == buffer[..chunk];
        total := total - chunk;
        NextBlock(lba, pos - offset);
        WrittenInRange(Contents(), f, pos, buffer[..chunk]);
        lba := NextLba(lba);
      }
    }

    /** The start of the last block. */
    method WriteLast(pos: nat, buffer: array<byte>, size: nat, lba: nat, total: nat,
          ghost f: seq<byte>, ghost from: nat, temp: array<byte>)
      returns (s: Status)
      requires 0 < size <= buffer.Length && 0 < total < blockSize && Underway(pos, size, total, lba, from)
      requires Written(Contents(), f, pos, buffer[..size - total])
      requires Stages(temp, buffer)
      modifies `calls, `blocks, temp
      ensures Valid() && calls >= old(calls) && (s == Ok || s == Failure)
      ensures s == Failure ==> blocks == old(blocks) && Blocked(pos, size, from)
      ensures s == Ok ==> NoFault(from) && Written(Contents(), f, pos, buffer[..size])
    {
      hide Starts, Written, Flat, Blocks;
      ghost var n := size - total;
      var ok := WriteMerged(lba, 0, buffer[size - total..size], pos + n, pos, f, buffer[..n], temp);
      assert buffer[..n] + buffer[n..size] == buffer[..size];
      s := if ok then Ok else Failure;
    }

    method WriteWholes(pos: nat, buffer: array<byte>, size: nat, lba0: nat, total0: nat,
          ghost f: seq<byte>, ghost from: nat)
      returns (s: Status, lba: nat, total: nat)
      requires 0 < size <= buffer.Length && Underway(pos, size, total0, lba0, from)
      requires Written(Contents(), f, pos, buffer[..size - total0])
      modifies `calls, `blocks
      ensures Valid() && calls >= old(calls) && (s == Ok || s == Failure)
      ensures s == Ok ==> total < blockSize && Underway(pos, size, total, lba, from)
      ensures s == Failure ==> 0 < total && Blocked(pos, size, from)
      ensures total <= size && Written(Contents(), f, pos, buffer[..size - total])
    {
      hide Starts, Written, Flat, Blocks;
      s, lba, total := Ok, lba0, total0;
      while total >= blockSize
        invariant calls >= old(calls) && Underway(pos, size, total, lba, from)
        invariant Written(Contents(), f, pos, buffer[..size - total])
      {
        ghost var n := size - total;
        var ok := WriteWhole(lba, buffer[size - total..size - total + blockSize], pos + n, pos, f, buffer[..n]);
        if !ok { return Failure, lba, total; }
        assert buffer[..n] + buffer[n..n + blockSize] == buffer[..n + blockSize];
        total := total - blockSize;
        NextBlock(lba, pos + n);
        WrittenInRange(Contents(), f, pos, buffer[..size - total]);
        lba := NextLba(lba);
      }
    }

    function FirstLba(pos: nat): nat
      requires blockSize > 0
    {
      pos / blockSize
    }

    function FirstOffset(pos: nat): nat
      requires blockSize > 0
    {
      pos % blockSize
    }

    lemma FirstBlock(pos: nat)
      requires blockSize > 0
      ensures FirstOffset(pos) < blockSize && FirstOffset(pos) <= pos
      ensures Starts(FirstLba(pos), pos - FirstOffset(pos))
    {
    }

    /** Counting blocks does not wrap: the block that was just transferred is on the device. */
    lemma NextBlock(lba: nat, base: nat)
      requires Valid() && Starts(lba, base) && lba < |blocks|
      ensures (lba + 1) % U32 == lba + 1 && Starts(lba + 1, base + blockSize)
    {
    }

    /** lba++ on 32 bits. */
    method NextLba(lba: nat) returns (r: nat)
      ensures r == (lba + 1) % U32
    {
      r := (lba + 1) % U32;
    }
  }

  /** The staged block is what the driver read. */
  lemma Staged(t: seq<byte>, b: seq<byte>, offset: nat, n: nat)
    requires |b| <= |t| && offset + n <= |b|
    ensures Patch(t, 0, b)[offset..offset + n] == b[offset..offset + n]
  {
  }

  lemma StagedMore(f: seq<byte>, b: seq<byte>, offset: nat, n: nat, t: seq<byte>, buffer: seq<byte>,
        was: seq<byte>, pos: nat, at: nat)
    requires offset + n <= |b| <= |t| && pos + at + n <= |f| && f[pos + at..pos + at + n] == b[offset..offset + n]
    requires Holds(buffer, was, f, pos, at) && at + n <= |buffer| == |was|
    ensures Patch(t, 0, b)[offset..offset + n] == b[offset..offset + n]
    ensures Holds(Patch(buffer, at, b[offset..offset + n]), was, f, pos, at + n)
  {
    Staged(t, b, offset, n);
    hide Holds, Patch;
    HoldsMore(buffer, was, f, pos, at, n);
  }

  lemma DirectMore(f: seq<byte>, b: seq<byte>, buffer: seq<byte>, was: seq<byte>, pos: nat, at: nat)
    requires pos + at + |b| <= |f| && f[pos + at..pos + at + |b|] == b
    requires Holds(buffer, was, f, pos, at) && at + |b| <= |buffer| == |was|
    ensures Holds(Patch(buffer, at, b), was, f, pos, at + |b|)
  {
    hide Holds, Patch;
    HoldsMore(buffer, was, f, pos, at, |b|);
  }

  lemma Merged(t: seq<byte>, b: seq<byte>, offset: nat, d: seq<byte>)
    requires |b| <= |t| && offset + |d| <= |b|
    ensures Patch(Patch(t, 0, b), offset, d)[..|b|] == Patch(b, offset, d)
    ensures |Patch(b, offset, d)| == |b|
  {
  }

  lemma SeenAfterWrite(c: seq<byte>, was: seq<byte>, g: seq<byte>, f: seq<byte>, p: nat, d: seq<byte>, q: nat, m: nat)
    requires Written(g, f, p, d) && Holds(c, was, g, q, m) && d != [] && m > 0
    ensures m <= |c| && p + |d| <= |f| && q + m <= |f| == |g|
    ensures forall i :: 0 <= i < m ==> c[i] == if p <= q + i < p + |d| then d[q + i - p] else f[q + i]
    ensures p == q && m == |d| ==> c[..m] == d
  {
    assert c[..m] == g[q..q + m];
    forall i | 0 <= i < m ensures c[i] == if p <= q + i < p + |d| then d[q + i - p] else f[q + i] {
      assert c[i] == c[..m][i] == g[q + i];
    }
    if p == q && m == |d| { assert forall i :: 0 <= i < m ==> c[..m][i] == d[i]; }
  }

  /** memcpy(buffer + at, data, |data|). */
  method CopyTo(buffer: array<byte>, at: nat, data: seq<byte>)
    requires at + |data| <= buffer.Length
    modifies buffer
    ensures buffer[..] == Patch(old(buffer[..]), at, data)
  {
    ghost var was := buffer[..];
    for i := 0 to |data|
      invariant buffer[..at] == was[..at] && buffer[at + i..] == was[at + i..]
      invariant buffer[at..at + i] == data[..i]
    {
      buffer[at + i] := data[i];
    }
    assert buffer[..] == buffer[..at] + buffer[at..at + |data|] + buffer[at + |data|..];
  }
}
