/** The ext2 reader over the driver: blocks, block mapping, ranges of a file, and open files. */
module Ext2Reader {
  import opened Prim
  import opened AtaDriver
  import opened Storage
  import opened Ext2
  import opened Ext2Image

  /** The reader either delivers (with the 16-bit count it returns) or ends the loader. */
  datatype Outcome = Fatal | Done(count: u16)

  class Reader {
    const dev: Driver
    const v: Volume
    const buff: array<u8>
    const buff2: array<u8>
    const data: array<u8>

    ghost predicate Valid() reads dev.Repr {
      && dev.Valid() && Mountable(v)
      && buff.Length == 4096 && buff2.Length == 4096 && data.Length == 4096
      && buff != buff2 && buff != data && buff2 != data
      && buff != dev.cachedata && buff2 != dev.cachedata && data != dev.cachedata
      && buff != dev.buff && buff2 != dev.buff && data != dev.buff
    }

    ghost function Disk(): seq<u8>
      requires Valid()
      reads dev.Repr
    {
      dev.D().disk
    }

    /** A buffer of the caller. */
    ghost predicate Foreign(dst: array<u8>) {
      dst != buff && dst != buff2 && dst != data && dst != dev.cachedata && dst != dev.buff
    }

    constructor (dev: Driver, v: Volume)
      requires dev.Valid() && Mountable(v)
      ensures Valid() && this.dev == dev && this.v == v && fresh(buff) && fresh(buff2) && fresh(data)
    {
      this.dev, this.v := dev, v;
      buff := new u8[4096](_ => 0);
      buff2 := new u8[4096](_ => 0);
      data := new u8[4096](_ => 0);
    }

    method GetBlock(dst: array<u8>, block: u32)
      requires Valid() && BlockOnDisk(Disk(), v, dev.Wide(), block)
      requires dst != dev.cachedata && dst != dev.buff && BlockSize(v) <= dst.Length
      modifies dev`ctl, dev`cacheticks, dev.cachedata, dev.cacheaddr, dev.cachetick, dev.buff, dst
      ensures Valid() && Disk() == old(Disk())
      ensures HoldsBlock(dst[..], Disk(), v, block)
    {
      var offset := (block * PerBlock(v) % 0x1_0000_0000 + v.lba) % 0x1_0000_0000;
      NoWrap(Disk(), v, dev.Wide(), block);
      hide AtaDriver.Spans, Cell, PerBlock;
      Load(dev, dst, 0, offset, PerBlock(v), true);
    }

    /** The block number at place i of an indirect block in a buffer. */
    function Word(buffer: array<u8>, i: nat): u32
      requires 4 * i + 4 <= buffer.Length
      reads buffer
    {
      LittleEndian(buffer[4 * i], buffer[4 * i + 1], buffer[4 * i + 2], buffer[4 * i + 3])
    }

    /** Loads an indirect block into one of the map buffers and takes block number i from it. */
    method LoadPointer(buffer: array<u8>, block: u32, i: nat) returns (at: u32)
      requires Valid() && BlockOnDisk(Disk(), v, dev.Wide(), block) && i < Fanout(v)
      requires buffer != dev.cachedata && buffer != dev.buff && buffer.Length == 4096
      modifies dev`ctl, dev`cacheticks, dev.cachedata, dev.cacheaddr, dev.cachetick, dev.buff, buffer
      ensures Valid() && Disk() == old(Disk()) && at == Pointer(Disk(), v, block, i)
    {
      GetBlock(buffer, block);
      at := Word(buffer, i);
    }

    /** Through the doubly indirect map. */
    method DoublyIndirect(f: Inode, num: u32) returns (block: u32)
      requires Valid() && InodeOk(f) && Reachable(Disk(), v, dev.Wide(), f, num)
      requires 12 + Fanout(v) <= num < Limit(v)
      modifies dev`ctl, dev`cacheticks, dev.cachedata, dev.cacheaddr, dev.cachetick, dev.buff, buff, buff2
      ensures Valid() && Disk() == old(Disk()) && Some(block) == MapBlock(Disk(), v, f, num)
    {
      hide Row, Column, Pointer, BlockOnDisk;
      StepsOnDisk(Disk(), v, dev.Wide(), f, num);
      RowExists(v, num);
      block := LoadPointer(buff2, f.block[13], Row(v, num));
      block := LoadPointer(buff, block, Column(v, num));
    }

    /** The block that holds block `num` of the file, through the direct, indirect or doubly
        indirect map. */
    method FindBlock(f: Inode, num: u32) returns (block: Option<u32>)
      requires Valid() && InodeOk(f) && Reachable(Disk(), v, dev.Wide(), f, num)
      modifies dev`ctl, dev`cacheticks, dev.cachedata, dev.cacheaddr, dev.cachetick, dev.buff, buff, buff2
      ensures Valid() && Disk() == old(Disk()) && block == MapBlock(Disk(), v, f, num)
      ensures forall ns, tops :: StoresMap(Disk(), v, f, ns, tops) && num < |ns| && num < Limit(v) ==> block == Some(ns[num])
    {
      hide StoresMap;
      MapDecodesAll(Disk(), v, f, num);
      var at;
      if num < 12 {
        return Some(f.block[num]);
      } else if num < 12 + Fanout(v) {
        StepsOnDisk(Disk(), v, dev.Wide(), f, num);
        at := LoadPointer(buff, f.block[12], num - 12);
        return Some(at);
      } else if num < 12 + Fanout(v) * Fanout(v) {
        at := DoublyIndirect(f, num);
        return Some(at);
      } else {
        return None;
      }
    }

    method ReadDatablock(f: Inode, dst: array<u8>, num: u32) returns (ok: bool)
      requires Valid() && InodeOk(f) && Reachable(Disk(), v, dev.Wide(), f, num)
      requires dst != buff && dst != buff2 && dst != dev.cachedata && dst != dev.buff && BlockSize(v) <= dst.Length
      modifies dev`ctl, dev`cacheticks, dev.cachedata, dev.cacheaddr, dev.cachetick, dev.buff, buff, buff2, dst
      ensures Valid() && Disk() == old(Disk())
      ensures ok <==> num < Limit(v)
      ensures ok ==> MapBlock(Disk(), v, f, num).Some? && HoldsBlock(dst[..], Disk(), v, MapBlock(Disk(), v, f, num).value)
    {
      hide HoldsBlock;
      var block := FindBlock(f, num);
      ok := block.Some?;
      if ok { GetBlock(dst, block.value); }
    }

    /** The stretch from position `from` of the file on, within one block. */
    method ReadPart(f: Inode, dst: array<u8>, at: nat, from: nat, n: nat) returns (ok: bool)
      requires Valid() && InodeOk(f) && Foreign(dst) && at + n <= dst.Length
      requires InBlock(v, from) + n <= BlockSize(v) && BlockOf(v, from) < 0x1_0000_0000
      requires Reachable(Disk(), v, dev.Wide(), f, BlockOf(v, from))
      modifies dev`ctl, dev`cacheticks, dev.cachedata, dev.cacheaddr, dev.cachetick, dev.buff, buff, buff2, data, dst
      ensures Valid() && Disk() == old(Disk())
      ensures ok <==> BlockOf(v, from) < Limit(v)
      ensures ok ==> Filled(dst[..], old(dst[..]), at, n, AsRead(Disk(), v, f), from)
    {
      hide BlockOf, InBlock, AsRead, Filled, Reachable, HoldsBlock, Copied, Limit, MapBlock;
      ok := ReadDatablock(f, data, BlockOf(v, from));
      if ok {
        ghost var held, was := data[..], dst[..];
        Copy(data, InBlock(v, from), dst, at, n);
        CopyFills(dst[..], was, held, at, n, Disk(), v, f, from);
      }
    }

    /** The next block of a range of which `read` bytes have arrived. */
    method ReadNext(f: Inode, dst: array<u8>, at: nat, off: u32, size: u32, read: nat, sblk: nat, soff: nat,
                    ghost was: seq<u8>)
      returns (ok: bool, n: nat)
      requires Valid() && InodeOk(f) && Foreign(dst) && at + size <= dst.Length && off + size < 0x1_0000_0000
      requires RangeReachable(Disk(), v, dev.Wide(), f, off, size) && BlockOf(v, off) < BlockOf(v, off + size)
      requires Partway(v, off, size, read, sblk, soff) && Filled(dst[..], was, at, read, AsRead(Disk(), v, f), off)
      modifies dev`ctl, dev`cacheticks, dev.cachedata, dev.cacheaddr, dev.cachetick, dev.buff, buff, buff2, data, dst
      ensures Valid() && Disk() == old(Disk())
      ensures ok <==> sblk < Limit(v)
      ensures n == Share(v, off, size, sblk, soff)
      ensures ok ==> Filled(dst[..], was, at, read + n, AsRead(Disk(), v, f), off)
    {
      hide BlockOf, InBlock, AsRead, Filled, Reachable, RangeReachable, Partway, Share;
      NextReachable(Disk(), v, dev.Wide(), f, off, size, read, sblk, soff);
      n := Share(v, off, size, sblk, soff);
      ghost var before, disk := dst[..], Disk();
      ok := ReadPart(f, dst, at + read, off + read, n);
      if ok { FilledMore(dst[..], before, was, at, read, n, AsRead(disk, v, f), off); }
    }

    /** The range of the file from `off` on, block by block.  The count returned has 16 bits. */
    method ReadData(f: Inode, dst: array<u8>, at: nat, off: u32, size: u32) returns (r: Outcome)
      requires Valid() && InodeOk(f) && Foreign(dst) && at + size <= dst.Length && off + size < 0x1_0000_0000
      requires RangeReachable(Disk(), v, dev.Wide(), f, off, size)
      modifies dev`ctl, dev`cacheticks, dev.cachedata, dev.cacheaddr, dev.cachetick, dev.buff, buff, buff2, data, dst
      ensures Valid() && Disk() == old(Disk())
      ensures r.Done? <==> LastBlock(v, off, size) < Limit(v)
      ensures r.Done? ==> r.count == size % 0x1_0000 && Filled(dst[..], old(dst[..]), at, size, AsRead(Disk(), v, f), off)
      ensures r.Done? ==>
                && (Filled(dst[..], old(dst[..]), at, size, Content(Disk(), v, f), off) <==> RangeReadsRight(Disk(), v, f, off, size))
                && (HoleFree(Disk(), v, f, off, size) ==> Filled(dst[..], old(dst[..]), at, size, Content(Disk(), v, f), off))
      ensures r.Done? ==>
                forall ns, tops :: StoresMap(Disk(), v, f, ns, tops) && off + size <= |ns| * SizeOf(v) ==>
                  Filled(dst[..], old(dst[..]), at, size, Image(Disk(), v, ns), off)
    {
      hide StoresMap, Image, SizeOf;
      hide BlockOf, InBlock, AsRead, Filled, Reachable, LastBlock, Content, RangeReadsRight, HoleFree;
      ghost var was := dst[..];
      var sblk, eblk := BlockOf(v, off), BlockOf(v, off + size);
      var soff, eoff := InBlock(v, off), InBlock(v, off + size);
      BlocksInOrder(v, off, size);
      if sblk == eblk {
        OneBlock(Disk(), v, dev.Wide(), f, off, size);
        var ok := ReadPart(f, dst, at, off, eoff - soff);
        r := if ok then Done((eoff - soff) % 0x1_0000) else Fatal;
      } else {
        r := ReadAcross(f, dst, at, off, size);
      }
      if r.Done? {
        FileExactly(dst[..], was, at, size, Disk(), v, f, off);
        FilledDecodesAll(dst[..], was, at, size, Disk(), v, f, off);
      }
    }

    /** A range that crosses from one block into another. */
    method ReadAcross(f: Inode, dst: array<u8>, at: nat, off: u32, size: u32) returns (r: Outcome)
      requires Valid() && InodeOk(f) && Foreign(dst) && at + size <= dst.Length && off + size < 0x1_0000_0000
      requires RangeReachable(Disk(), v, dev.Wide(), f, off, size) && BlockOf(v, off) < BlockOf(v, off + size)
      modifies dev`ctl, dev`cacheticks, dev.cachedata, dev.cacheaddr, dev.cachetick, dev.buff, buff, buff2, data, dst
      ensures Valid() && Disk() == old(Disk())
      ensures r.Done? <==> LastBlock(v, off, size) < Limit(v)
      ensures r.Done? ==> r.count == size % 0x1_0000 && Filled(dst[..], old(dst[..]), at, size, AsRead(Disk(), v, f), off)
    {
      hide BlockOf, InBlock, AsRead, Filled, Share, LastBlock, Limit, RangeReachable;
      ghost var disk, was := Disk(), dst[..];
      StartPartway(v, off, size);
      NothingFilled(was, at, AsRead(disk, v, f), off);
      var sblk: nat, soff: nat, read: nat := BlockOf(v, off), InBlock(v, off), 0;
      while read < size
        invariant read <= size && Valid() && Disk() == disk
        invariant read < size ==> Partway(v, off, size, read, sblk, soff)
        invariant read == size ==> LastBlock(v, off, size) < Limit(v)
        invariant Filled(dst[..], was, at, read, AsRead(disk, v, f), off)
      {
        OneMore(v, off, size, read, sblk, soff);
        var ok, n := ReadNext(f, dst, at, off, size, read, sblk, soff, was);
        if !ok { return Fatal; }
        read := read + n;
        soff := 0;
        sblk := sblk + 1;
      }
      return Done(read % 0x1_0000);
    }
  }

  // ---------------------------------------------------------------- open files

  /** How much of a request a file has left. */
  function Taken(position: u32, length: u32, want: u32): u32
    requires position <= length
  {
    if want > length - position then length - position else want
  }

  /** The position after a seek and the code returned. */
  function Seek(position: u32, length: u32, offset: int, whence: Whence): (r: (u32, int))
    requires position <= length
    ensures r.0 <= length
  {
    if whence == OtherWhence then (position, -2)
    else
      var to := Signed32(offset + match whence case Cur => position case End => length case _ => 0);
      if to < 0 || to > length then (position, -1) else (to, 0)
  }

  /** A seek lands where it is told exactly when that place is in the file and fits a signed
      32-bit number; otherwise the position stays. */
  lemma SeekExactly(position: u32, length: u32, offset: int, whence: Whence)
    requires position <= length && -0x8000_0000 <= offset < 0x8000_0000 && whence != OtherWhence
    ensures var to := offset + match whence case Cur => position case End => length case _ => 0;
            && (Seek(position, length, offset, whence) == (to, 0) <==> 0 <= to <= length && to < 0x8000_0000)
            && (Seek(position, length, offset, whence).1 != 0 ==> Seek(position, length, offset, whence).0 == position)
  {
  }

  /** Items of `size` bytes read, or a seek. */
  datatype Call = ReadCall(size: u32, nmemb: u32) | SeekCall(offset: int, whence: Whence)

  predicate CallOk(c: Call) { c.ReadCall? ==> c.size > 0 }

  /** The bytes a call delivers. */
  function Amount(position: u32, length: u32, c: Call): u32
    requires position <= length
  {
    match c
    case ReadCall(size, nmemb) => Taken(position, length, Wanted(size, nmemb))
    case SeekCall(_, _) => 0
  }

  /** The position after a call. */
  function After(position: u32, length: u32, c: Call): (r: u32)
    requires position <= length
    ensures r <= length
  {
    match c
    case ReadCall(_, _) => position + Amount(position, length, c)
    case SeekCall(offset, whence) => Seek(position, length, offset, whence).0
  }

  function Position(position: u32, length: u32, calls: seq<Call>): u32
    requires position <= length
    decreases |calls|
  {
    if calls == [] then position else Position(After(position, length, calls[0]), length, calls[1..])
  }

  /** The position stays within the file over any run of reads and seeks. */
  lemma {:induction false} PositionStaysInside(position: u32, length: u32, calls: seq<Call>)
    requires position <= length
    ensures Position(position, length, calls) <= length
    decreases |calls|
  {
    if calls != [] { PositionStaysInside(After(position, length, calls[0]), length, calls[1..]); }
  }

  /** What a run of calls delivers, call after call. */
  function Delivered(disk: seq<u8>, v: Volume, f: Inode, position: u32, length: u32, calls: seq<Call>): seq<u8>
    requires Mountable(v) && InodeOk(f) && position <= length
    decreases |calls|
  {
    if calls == [] then []
    else
      ReadSlice(disk, v, f, position, Amount(position, length, calls[0]))
      + Delivered(disk, v, f, After(position, length, calls[0]), length, calls[1..])
  }

  /** Every block the run looks at is on the disk ... */
  ghost predicate RunReachable(disk: seq<u8>, v: Volume, wide: bool, f: Inode, position: u32, length: u32, calls: seq<Call>)
    requires Mountable(v) && InodeOk(f) && position <= length
    decreases |calls|
  {
    calls != [] ==>
      && (calls[0].ReadCall? ==> RangeReachable(disk, v, wide, f, position, Amount(position, length, calls[0])))
      && RunReachable(disk, v, wide, f, After(position, length, calls[0]), length, calls[1..])
  }

  /** ... and one that the reader serves. */
  predicate RunServed(v: Volume, position: u32, length: u32, calls: seq<Call>)
    requires Mountable(v) && position <= length
    decreases |calls|
  {
    calls != [] ==>
      && (calls[0].ReadCall? ==> LastBlock(v, position, Amount(position, length, calls[0])) < Limit(v))
      && RunServed(v, After(position, length, calls[0]), length, calls[1..])
  }

  predicate ReadsOnly(calls: seq<Call>) { forall c :: c in calls ==> c.ReadCall? }

  function Total(calls: seq<Call>): nat
    requires ReadsOnly(calls)
  {
    if calls == [] then 0 else Wanted(calls[0].size, calls[0].nmemb) + Total(calls[1..])
  }

  /** How far reads alone get. */
  function Reach(position: u32, length: u32, calls: seq<Call>): (n: u32)
    requires position <= length && ReadsOnly(calls)
    ensures position + n <= length
  {
    if Total(calls) > length - position then length - position else Total(calls)
  }

  lemma SlicesJoin(disk: seq<u8>, v: Volume, f: Inode, from: nat, a: nat, b: nat)
    requires Mountable(v) && InodeOk(f)
    ensures ReadSlice(disk, v, f, from, a) + ReadSlice(disk, v, f, from + a, b) == ReadSlice(disk, v, f, from, a + b)
  {
    hide ReadByte;
  }

  /** However a read is cut into calls, the pieces make up one large read. */
  lemma {:induction false} PiecesMakeOneRead(disk: seq<u8>, v: Volume, f: Inode, position: u32, length: u32, calls: seq<Call>)
    requires Mountable(v) && InodeOk(f) && position <= length && ReadsOnly(calls)
    ensures Delivered(disk, v, f, position, length, calls) == ReadSlice(disk, v, f, position, Reach(position, length, calls))
    ensures Position(position, length, calls) == position + Reach(position, length, calls)
    decreases |calls|
  {
    hide ReadSlice;
    if calls == [] {
      NoSlice(disk, v, f, position);
    } else {
      var n := Amount(position, length, calls[0]);
      PiecesMakeOneRead(disk, v, f, position + n, length, calls[1..]);
      SlicesJoin(disk, v, f, position, n, Reach(position + n, length, calls[1..]));
    }
  }

  lemma NoSlice(disk: seq<u8>, v: Volume, f: Inode, from: nat)
    requires Mountable(v) && InodeOk(f)
    ensures ReadSlice(disk, v, f, from, 0) == []
  {
  }

  /** If every piece is served, the whole is. */
  lemma {:induction false} PiecesServed(v: Volume, position: u32, length: u32, calls: seq<Call>)
    requires Mountable(v) && position <= length && ReadsOnly(calls) && RunServed(v, position, length, calls)
    ensures Reach(position, length, calls) > 0 ==> LastBlock(v, position, Reach(position, length, calls)) < Limit(v)
    decreases |calls|
  {
    hide BlockOf, Limit;
    if calls != [] { PiecesServed(v, After(position, length, calls[0]), length, calls[1..]); }
  }

  /** A buffer whose bytes from `at` on are `t`, and otherwise as before. */
  ghost predicate Overlaid(dst: seq<u8>, was: seq<u8>, at: nat, t: seq<u8>) {
    |dst| == |was| && forall k :: 0 <= k < |dst| ==> dst[k] == if at <= k < at + |t| then t[k - at] else was[k]
  }

  lemma OverlaidTwice(dst: seq<u8>, mid: seq<u8>, was: seq<u8>, at: nat, t: seq<u8>, u: seq<u8>)
    requires Overlaid(mid, was, at, t) && Overlaid(dst, mid, at + |t|, u)
    ensures Overlaid(dst, was, at, t + u)
  {
  }

  lemma FilledIsOverlaid(dst: seq<u8>, was: seq<u8>, at: nat, n: nat, disk: seq<u8>, v: Volume, f: Inode, from: nat)
    requires Mountable(v) && InodeOk(f)
    ensures Filled(dst, was, at, n, AsRead(disk, v, f), from) <==> Overlaid(dst, was, at, ReadSlice(disk, v, f, from, n))
  {
    hide ReadByte;
    var t := ReadSlice(disk, v, f, from, n);
    assert forall i :: 0 <= i < n ==> t[i] == ReadByte(disk, v, f, from + i);
  }

  class File {
    const f: Inode
    const length: u32
    var position: u32

    ghost predicate Valid() reads this { InodeOk(f) && position <= length }

    constructor (f: Inode, length: u32)
      requires InodeOk(f)
      ensures Valid() && this.f == f && this.length == length && position == 0
    {
      this.f, this.length, position := f, length, 0;
    }

    method SeekTo(offset: int, whence: Whence) returns (code: int)
      requires Valid()
      modifies this
      ensures Valid() && (position, code) == Seek(old(position), length, offset, whence)
    {
      var to := offset;
      match whence {
        case Cur => to := Signed32(to + position);
        case Set => to := Signed32(to);
        case End => to := Signed32(to + length);
        case OtherWhence => return -2;
      }
      if to < 0 || to > length { return -1; }
      position := to;
      return 0;
    }

    /** Reads `nmemb` items of `size` bytes, as far as the file goes; None ends the loader. */
    method ReadItems(reader: Reader, dst: array<u8>, at: nat, size: u32, nmemb: u32) returns (items: Option<u32>)
      requires Valid() && reader.Valid() && reader.Foreign(dst) && size > 0
      requires var n := Taken(position, length, Wanted(size, nmemb));
               && at + n <= dst.Length
               && RangeReachable(reader.Disk(), reader.v, reader.dev.Wide(), f, position, n)
      modifies this, reader.dev`ctl, reader.dev`cacheticks, reader.dev.cachedata, reader.dev.cacheaddr, reader.dev.cachetick,
               reader.dev.buff, reader.buff, reader.buff2, reader.data, dst
      ensures Valid() && reader.Valid() && reader.Disk() == old(reader.Disk())
      ensures var n := Taken(old(position), length, Wanted(size, nmemb));
              && (items.Some? <==> LastBlock(reader.v, old(position), n) < Limit(reader.v))
              && (items.Some? ==>
                    && items.value == Items(n, size) && position == old(position) + n
                    && Filled(dst[..], old(dst[..]), at, n, AsRead(reader.Disk(), reader.v, f), old(position)))
    {
      hide Wanted, Items, AsRead, Filled, LastBlock, Limit, RangeReachable;
      var toRead := Wanted(size, nmemb);
      if toRead > length - position { toRead := length - position; }
      var r := reader.ReadData(f, dst, at, position, toRead);
      if r.Fatal? { return None; }
      position := position + toRead;
      return Some(Items(toRead, size));
    }

    /** One call of a client. */
    method Perform(reader: Reader, dst: array<u8>, at: nat, c: Call) returns (ok: bool)
      requires Valid() && reader.Valid() && reader.Foreign(dst) && CallOk(c)
      requires at + Amount(position, length, c) <= dst.Length
      requires RunReachable(reader.Disk(), reader.v, reader.dev.Wide(), f, position, length, [c])
      modifies this, reader.dev`ctl, reader.dev`cacheticks, reader.dev.cachedata, reader.dev.cacheaddr, reader.dev.cachetick,
               reader.dev.buff, reader.buff, reader.buff2, reader.data, dst
      ensures Valid() && reader.Valid() && reader.Disk() == old(reader.Disk())
      ensures ok <==> RunServed(reader.v, old(position), length, [c])
      ensures ok ==>
                && position == After(old(position), length, c)
                && Overlaid(dst[..], old(dst[..]), at,
                            ReadSlice(reader.Disk(), reader.v, f, old(position), Amount(old(position), length, c)))
    {
      hide Wanted, Filled, Overlaid, ReadSlice, AsRead, LastBlock, Limit, RangeReachable, Seek, Reader.Foreign;
      ghost var was, start, disk := dst[..], position, reader.Disk();
      match c
      case ReadCall(size, nmemb) =>
        var items := ReadItems(reader, dst, at, size, nmemb);
        ok := items.Some?;
        if ok { FilledIsOverlaid(dst[..], was, at, Amount(start, length, c), disk, reader.v, f, start); }
      case SeekCall(offset, whence) =>
        var code := SeekTo(offset, whence);
        ok := true;
        NothingOverlaid(was, at, disk, reader.v, f, start);
    }

    /** A client's run of calls, with what they read laid end to end. */
    method PerformAll(reader: Reader, dst: array<u8>, at: nat, calls: seq<Call>) returns (ok: bool)
      requires Valid() && reader.Valid() && reader.Foreign(dst) && forall c :: c in calls ==> CallOk(c)
      requires at + |Delivered(reader.Disk(), reader.v, f, position, length, calls)| <= dst.Length
      requires RunReachable(reader.Disk(), reader.v, reader.dev.Wide(), f, position, length, calls)
      modifies this, reader.dev`ctl, reader.dev`cacheticks, reader.dev.cachedata, reader.dev.cacheaddr, reader.dev.cachetick,
               reader.dev.buff, reader.buff, reader.buff2, reader.data, dst
      ensures Valid() && reader.Valid() && reader.Disk() == old(reader.Disk())
      ensures ok <==> RunServed(reader.v, old(position), length, calls)
      ensures ok ==>
                && position == Position(old(position), length, calls)
                && Overlaid(dst[..], old(dst[..]), at, Delivered(reader.Disk(), reader.v, f, old(position), length, calls))
      decreases |calls|
    {
      hide Overlaid, ReadSlice, LastBlock, Limit, RangeReachable, Amount, After, Reader.Foreign, CallOk;
      ghost var was, start, disk := dst[..], position, reader.Disk();
      if calls == [] {
        EmptyOverlaid(was, at);
        return true;
      }
      var n := Amount(position, length, calls[0]);
      ok := Perform(reader, dst, at, calls[0]);
      if !ok { return; }
      ghost var mid := dst[..];
      ok := PerformAll(reader, dst, at + n, calls[1..]);
      if ok {
        OverlaidTwice(dst[..], mid, was, at, ReadSlice(disk, reader.v, f, start, n),
                      Delivered(disk, reader.v, f, After(start, length, calls[0]), length, calls[1..]));
      }
    }

    /** Reads in pieces are one read of their total, as far as the file goes; it is the file exactly
        where every byte is read right. */
    method ReadInPieces(reader: Reader, dst: array<u8>, at: nat, calls: seq<Call>) returns (ok: bool)
      requires Valid() && reader.Valid() && reader.Foreign(dst)
      requires ReadsOnly(calls) && forall c :: c in calls ==> CallOk(c)
      requires at + Reach(position, length, calls) <= dst.Length
      requires RunReachable(reader.Disk(), reader.v, reader.dev.Wide(), f, position, length, calls)
      modifies this, reader.dev`ctl, reader.dev`cacheticks, reader.dev.cachedata, reader.dev.cacheaddr, reader.dev.cachetick,
               reader.dev.buff, reader.buff, reader.buff2, reader.data, dst
      ensures Valid() && reader.Valid() && reader.Disk() == old(reader.Disk())
      ensures ok <==> RunServed(reader.v, old(position), length, calls)
      ensures ok ==>
                var n := Reach(old(position), length, calls);
                && position == old(position) + n
                && Filled(dst[..], old(dst[..]), at, n, AsRead(reader.Disk(), reader.v, f), old(position))
                && (Filled(dst[..], old(dst[..]), at, n, Content(reader.Disk(), reader.v, f), old(position)) <==>
                      RangeReadsRight(reader.Disk(), reader.v, f, old(position), n))
    {
      hide Overlaid, ReadSlice, Limit, RunReachable, RunServed, RangeReadsRight, AsRead, Content, Filled;
      hide Reader.Foreign, CallOk, Position, Delivered, LastBlock, Reach;
      ghost var was, start, disk, n := dst[..], position, reader.Disk(), Reach(position, length, calls);
      PiecesMakeOneRead(disk, reader.v, f, start, length, calls);
      ok := PerformAll(reader, dst, at, calls);
      if ok {
        FilledIsOverlaid(dst[..], was, at, n, disk, reader.v, f, start);
        PiecesServed(reader.v, start, length, calls);
        FileExactly(dst[..], was, at, n, disk, reader.v, f, start);
      }
    }
  }

  lemma NothingOverlaid(was: seq<u8>, at: nat, disk: seq<u8>, v: Volume, f: Inode, from: nat)
    requires Mountable(v) && InodeOk(f)
    ensures Overlaid(was, was, at, ReadSlice(disk, v, f, from, 0))
  {
  }

  lemma EmptyOverlaid(was: seq<u8>, at: nat)
    ensures Overlaid(was, was, at, [])
  {
  }
}
