/** Reading ext2 file data: get_block and read_file_data over a byte-addressed block device. */
module Ext2 {
  import opened Dyadic
  import opened Wrappers
  import opened FlatBytes
  import opened FileView
  import opened Words
  import BD = BlockDevice

  class Ext2Mount {
    const device: BD.BlockDevice
    const blockSize: nat
    /** Heap requests so far; request number t succeeds if heap(t). */
    var requests: nat
    const heap: nat -> bool

    ghost predicate Valid()
      reads this, device
    {
      device.Valid() && ValidSize(blockSize)
    }

    /** No transfer and no heap request since the given numbers has failed. */
    ghost predicate Calm(calls: nat, from: nat)
      reads this, device
    {
      device.NoFault(calls) && forall t :: from <= t < requests ==> heap(t)
    }

    constructor (device: BD.BlockDevice, logBlockSize: nat, heap: nat -> bool)
      requires device.Valid() && 1024 * Pow2(logBlockSize) < U32
      ensures Valid() && this.device == device && this.heap == heap
      ensures blockSize == 1024 * Pow2(logBlockSize)
    {
      BlockSizeIsValid(logBlockSize);
      this.device := device;
      blockSize := 1024 * Pow2(logBlockSize);
      requests := 0;
      this.heap := heap;
    }

    method Kmalloc() returns (ok: bool)
      modifies `requests
      ensures ok == heap(old(requests)) && requests == old(requests) + 1
    {
      ok := heap(requests);
      requests := requests + 1;
    }

    /** device_->read(number * block_size_, b, block_size_). */
    method ReadDiskBlock(number: nat, b: array<byte>) returns (ok: bool)
      requires Valid() && b.Length == blockSize
      modifies this`requests, device`calls, b
      ensures requests >= old(requests) && device.calls >= old(device.calls)
      ensures ok ==> DiskBlock(device.Contents(), blockSize, number) == Some(b[..])
      ensures !ok && Calm(old(device.calls), old(requests)) ==>
        DiskBlock(device.Contents(), blockSize, number).None?
    {
      var heapOk := true;
      if device.blockSize > BD.TEMP_BLOCK { heapOk := Kmalloc(); }
      var position := Position(number, blockSize);
      ghost var was := b[..];
      var s;
      ghost var done;
      s, done := device.Read(position, b, blockSize, heapOk);
      ok := s == BD.Ok;
      if ok { WholeBuffer(b[..], was, device.Contents(), position); }
    }

    method GetBlock(inode: Inode, index: nat) returns (ok: bool, number: nat)
      requires Valid() && ValidInode(inode)
      modifies this`requests, device`calls
      ensures requests >= old(requests) && device.calls >= old(device.calls)
      ensures ok ==> number != 0 && number == BlockNumber(device.Contents(), blockSize, inode, index)
      ensures !ok && Calm(old(device.calls), old(requests)) ==>
        BlockNumber(device.Contents(), blockSize, inode, index) == 0
      ensures ok ==> EntryIs(device.Contents(), blockSize, inode, index, number)
      ensures !ok && Calm(old(device.calls), old(requests)) ==> EntryIs(device.Contents(), blockSize, inode, index, 0)
    {
      BlockNumberIs(device.Contents(), blockSize, inode, index);
      hide EntryIs;
      if index < DIRECT {
        number := inode.block[index];
        return number != 0, number;
      }
      var i := index - DIRECT;
      var ptrsPerBlock := blockSize / 4;
      if i < ptrsPerBlock {
        var indirect := inode.block[DIRECT];
        if indirect == 0 { return false, 0; }
        ok := Kmalloc();
        if !ok { return false, 0; }
        var entries := new byte[blockSize](_ => 0);
        ok := ReadDiskBlock(indirect, entries);
        if !ok { return false, 0; }
        number := Word(entries[..], i);
        return number != 0, number;
      }
      return false, 0;
    }

    /** read_file_data: what it delivers always agrees with the flat file from `offset` on; unless a
        transfer or a heap request failed, it is all that ReadsAs allows. */
    method ReadFileData(inode: Inode, offset: nat, buffer: array?<byte>, size: nat) returns (total: nat)
      requires Valid() && ValidInode(inode) && offset < U32 && size < U32
      requires buffer != null ==> size <= buffer.Length
      modifies this`requests, device`calls, buffer
      ensures buffer == null ==> total == 0
      ensures buffer != null ==>
        && total <= buffer.Length && buffer[total..] == old(buffer[total..])
        && total <= Effective(inode, offset, size)
        && Agrees(device.Contents(), blockSize, inode, offset, buffer[..total])
      ensures buffer != null && Calm(old(device.calls), old(requests)) ==>
        ReadsAs(device.Contents(), blockSize, inode, offset, Effective(inode, offset, size), buffer[..total])
      ensures buffer != null ==>
        forall t {:trigger buffer[..total][t]} :: 0 <= t < total ==>
          OnDevice(device.Contents(), blockSize, inode, offset + t, buffer[..total][t])
    {
      hide OnDevice;
      if buffer == null { return 0; }
      NothingAgrees(device.Contents(), blockSize, inode, offset, buffer[..0]);
      if size == 0 || offset >= inode.size { return 0; }
      var n := if (offset + size) % U32 > inode.size then inode.size - offset else size;
      var ok := Kmalloc();
      if !ok { return 0; }
      var blockBuffer := new byte[blockSize](_ => 0);
      total := ReadBlocks(inode, offset, buffer, n, blockBuffer);
      AgreesOnDevice(device.Contents(), blockSize, inode, offset, buffer[..total]);
    }

    /** The loop over the blocks of the range. */
    method ReadBlocks(inode: Inode, offset: nat, buffer: array<byte>, n: nat, blockBuffer: array<byte>)
      returns (total: nat)
      requires Valid() && ValidInode(inode) && n <= buffer.Length
      requires blockBuffer.Length == blockSize && blockBuffer != buffer
      modifies this`requests, device`calls, buffer, blockBuffer
      ensures requests >= old(requests) && device.calls >= old(device.calls)
      ensures total <= n && buffer[total..] == old(buffer[total..])
      ensures Agrees(device.Contents(), blockSize, inode, offset, buffer[..total])
      ensures Calm(old(device.calls), old(requests)) ==>
        ReadsAs(device.Contents(), blockSize, inode, offset, n, buffer[..total])
    {
      hide Agrees, Locates, FileBlock, BlockNumber, DiskBlock;
      var size: nat := n;
      total := 0;
      var blockIndex: nat, blockOffset: nat := offset / blockSize, offset % blockSize;
      ghost var f, was := device.Contents(), buffer[..];
      StartLocates(blockSize, offset);
      NothingAgrees(f, blockSize, inode, offset, buffer[..0]);
      while size > 0
        invariant total + size == n && Valid() && device.Contents() == f
        invariant requests >= old(requests) && device.calls >= old(device.calls)
        invariant size > 0 ==> Locates(blockSize, blockIndex, blockOffset, offset + total)
        invariant buffer[total..] == was[total..]
        invariant Agrees(f, blockSize, inode, offset, buffer[..total])
        decreases size
      {
        NextBlockStarts(blockSize, blockIndex, blockOffset, offset + total);
        Located(f, blockSize, inode, blockIndex, blockOffset, offset + total);
        BlockBehind(f, blockSize, inode, blockIndex);
        var ok, number := GetBlock(inode, blockIndex);
        if !ok { break; }
        ok := ReadDiskBlock(number, blockBuffer);
        if !ok { break; }
        var chunk := blockSize - blockOffset;
        if chunk > size { chunk := size; }
        ghost var r := buffer[..total];
        AgreesMore(f, blockSize, inode, offset, r, blockIndex, blockOffset, blockBuffer[..], chunk);
        TailOfTail(buffer[..], was, total, chunk);
        Deliver(buffer, total, blockBuffer, blockOffset, chunk);
        size := size - chunk;
        total := total + chunk;
        blockIndex := blockIndex + 1;
        blockOffset := 0;
      }
    }
  }

  /** memcpy(buffer + total, block + o, chunk). */
  method Deliver(buffer: array<byte>, total: nat, block: array<byte>, o: nat, chunk: nat)
    requires buffer != block && total + chunk <= buffer.Length && o + chunk <= block.Length
    modifies buffer
    ensures buffer[..total + chunk] == old(buffer[..total]) + block[..][o..o + chunk]
    ensures buffer[total + chunk..] == old(buffer[total + chunk..])
  {
    ghost var was := buffer[..];
    BD.CopyTo(buffer, total, block[o..o + chunk]);
    assert buffer[..total + chunk] == was[..total] + block[..][o..o + chunk];
    assert buffer[total + chunk..] == was[total + chunk..];
  }

  lemma TailOfTail(b: seq<byte>, was: seq<byte>, i: nat, k: nat)
    requires i + k <= |b| == |was| && b[i..] == was[i..]
    ensures b[i + k..] == was[i + k..]
  {
    assert b[i + k..] == b[i..][k..];
  }

  lemma WholeBuffer(b: seq<byte>, was: seq<byte>, f: seq<byte>, p: nat)
    requires Holds(b, was, f, p, |was|) && |was| > 0
    ensures p + |was| <= |f| && b == f[p..p + |was|]
  {
  }

  lemma NothingAgrees(f: seq<byte>, bs: nat, inode: Inode, offset: nat, r: seq<byte>)
    requires ValidSize(bs) && ValidInode(inode) && r == []
    ensures Agrees(f, bs, inode, offset, r)
  {
  }

  lemma StartLocates(bs: nat, offset: nat)
    requires bs > 0
    ensures Locates(bs, offset / bs, offset % bs, offset)
  {
  }

  lemma BlockBehind(f: seq<byte>, bs: nat, inode: Inode, i: nat)
    requires ValidSize(bs) && ValidInode(inode)
    ensures var n := BlockNumber(f, bs, inode, i);
            FileBlock(f, bs, inode, i) == if n == 0 then None else DiskBlock(f, bs, n)
  {
  }
}
