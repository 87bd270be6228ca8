/** The layout of a file on an ext2 volume, the reader's own block mapping, and where the two part. */
module Ext2 {
  import opened Prim
  import opened Arith
  import opened Storage
  import AtaDriver

  const DIRECT := 12

  /** A volume starts at sector `lba`; a block is 1024 << log bytes, and no buffer holds more than 4096. */
  datatype Volume = Volume(lba: u32, log: nat)

  predicate Mountable(v: Volume) { v.log <= 2 }

  function PerBlock(v: Volume): (n: nat)
    requires Mountable(v)
    ensures n == 2 || n == 4 || n == 8
  {
    if v.log == 0 then 2 else if v.log == 1 then 4 else 8
  }

  function BlockSize(v: Volume): (n: nat)
    requires Mountable(v)
    ensures n == 1024 || n == 2048 || n == 4096
  {
    512 * PerBlock(v)
  }

  /** Block numbers in one block. */
  function Fanout(v: Volume): (n: nat)
    requires Mountable(v)
    ensures n == 256 || n == 512 || n == 1024
  {
    128 * PerBlock(v)
  }

  /** The block of a file that holds position p, and where in it p lies. */
  function BlockOf(v: Volume, p: nat): nat
    requires Mountable(v)
  {
    p / BlockSize(v)
  }

  function InBlock(v: Volume, p: nat): nat
    requires Mountable(v)
  {
    p % BlockSize(v)
  }

  function FirstSector(v: Volume, block: u32): nat
    requires Mountable(v)
  {
    block * PerBlock(v) + v.lba
  }

  datatype Inode = Inode(block: seq<u32>)

  predicate InodeOk(f: Inode) { |f.block| == 15 }

  /** Byte i of a block. */
  function BlockByte(disk: seq<u8>, v: Volume, block: u32, i: nat): u8
    requires Mountable(v)
  {
    Cell(disk, 512 * FirstSector(v, block) + i)
  }

  function LittleEndian(b0: u8, b1: u8, b2: u8, b3: u8): u32 {
    b0 + 0x100 * b1 + 0x1_0000 * b2 + 0x100_0000 * b3
  }

  /** Block number i in an indirect block. */
  function Pointer(disk: seq<u8>, v: Volume, block: u32, i: nat): u32
    requires Mountable(v)
  {
    LittleEndian(BlockByte(disk, v, block, 4 * i), BlockByte(disk, v, block, 4 * i + 1),
                 BlockByte(disk, v, block, 4 * i + 2), BlockByte(disk, v, block, 4 * i + 3))
  }

  // ---------------------------------------------------------------- the layout

  /** The block numbers in an indirect block, in order. */
  function Pointers(disk: seq<u8>, v: Volume, block: u32): (r: seq<u32>)
    requires Mountable(v)
    ensures |r| == Fanout(v)
  {
    seq(Fanout(v), i requires 0 <= i => Pointer(disk, v, block, i))
  }

  /** The block numbers reached through a list of indirect blocks. */
  function Through(disk: seq<u8>, v: Volume, blocks: seq<u32>): seq<u32>
    requires Mountable(v)
  {
    if blocks == [] then [] else Pointers(disk, v, blocks[0]) + Through(disk, v, blocks[1..])
  }

  /** The blocks of a file: 12 direct ones, those of an indirect block, those of the indirect
      blocks of a doubly indirect block. */
  function FileBlocks(disk: seq<u8>, v: Volume, f: Inode): seq<u32>
    requires Mountable(v) && InodeOk(f)
  {
    f.block[..DIRECT] + Pointers(disk, v, f.block[12]) + Through(disk, v, Pointers(disk, v, f.block[13]))
  }

  lemma {:induction false} ThroughAt(disk: seq<u8>, v: Volume, blocks: seq<u32>, i: nat, j: nat)
    requires Mountable(v) && i < |blocks| && j < Fanout(v)
    ensures 0 <= i * Fanout(v) + j < |Through(disk, v, blocks)|
    ensures Through(disk, v, blocks)[i * Fanout(v) + j] == Pointer(disk, v, blocks[i], j)
  {
    var n := Fanout(v);
    ThroughLength(disk, v, blocks);
    RowInRange(i, j, n, |blocks|);
    if i > 0 {
      ThroughAt(disk, v, blocks[1..], i - 1, j);
      RowBelow(i, j, n);
    }
  }

  lemma RowInRange(i: nat, j: nat, n: nat, rows: nat)
    requires i < rows && j < n
    ensures 0 <= i * n + j < rows * n
  {
    ProductOrder(i, 0, n);
    ProductOrder(rows, i + 1, n);
  }

  lemma RowBelow(i: nat, j: nat, n: nat)
    requires i > 0
    ensures i * n + j == n + ((i - 1) * n + j)
  {
  }

  lemma {:induction false} ThroughLength(disk: seq<u8>, v: Volume, blocks: seq<u32>)
    requires Mountable(v)
    ensures |Through(disk, v, blocks)| == |blocks| * Fanout(v)
  {
    if blocks != [] { ThroughLength(disk, v, blocks[1..]); }
  }

  // ---------------------------------------------------------------- the reader's mapping

  /** Where the reader stops: "tri-indirects not supported". */
  function Limit(v: Volume): (n: nat)
    requires Mountable(v)
    ensures n > DIRECT + Fanout(v)
  {
    DIRECT + Fanout(v) * Fanout(v)
  }

  /** Past the indirect blocks: which pointer of the doubly indirect block, and which of the block
      it leads to. */
  function Row(v: Volume, num: nat): (r: nat)
    requires Mountable(v) && DIRECT + Fanout(v) <= num
  {
    (num - (DIRECT + Fanout(v))) / Fanout(v)
  }

  function Column(v: Volume, num: nat): (r: nat)
    requires Mountable(v) && DIRECT + Fanout(v) <= num
    ensures r < Fanout(v)
  {
    (num - (DIRECT + Fanout(v))) % Fanout(v)
  }

  /** The block the reader takes for block `num` of a file; None ends the loader. */
  function MapBlock(disk: seq<u8>, v: Volume, f: Inode, num: nat): Option<u32>
    requires Mountable(v) && InodeOk(f)
  {
    var n := Fanout(v);
    if num < DIRECT then Some(f.block[num])
    else if num < DIRECT + n then Some(Pointer(disk, v, f.block[12], num - DIRECT))
    else if num < Limit(v) then
      Some(Pointer(disk, v, Pointer(disk, v, f.block[13], Row(v, num)), Column(v, num)))
    else None
  }

  /** The mapping is that of the layout for every block it serves. */
  lemma MapFollowsLayout(disk: seq<u8>, v: Volume, f: Inode, num: nat)
    requires Mountable(v) && InodeOk(f) && num < Limit(v)
    ensures num < |FileBlocks(disk, v, f)| && MapBlock(disk, v, f, num) == Some(FileBlocks(disk, v, f)[num])
  {
    hide Through, Pointer;
    var n := Fanout(v);
    if num >= DIRECT + n {
      var m := num - (DIRECT + n);
      QuotientBelow(m, n);
      ThroughAt(disk, v, Pointers(disk, v, f.block[13]), m / n, m % n);
      assert FileBlocks(disk, v, f)[num] == Through(disk, v, Pointers(disk, v, f.block[13]))[m];
    }
  }

  lemma QuotientBelow(m: nat, n: nat)
    requires n > 0 && m + n < n * n
    ensures m / n < n && m / n * n + m % n == m
  {
    assert m / n * n <= m;
    ProductOrder(m / n, n, n);
  }

  lemma RowExists(v: Volume, num: nat)
    requires Mountable(v) && DIRECT + Fanout(v) <= num < Limit(v)
    ensures Row(v, num) < Fanout(v)
  {
    QuotientBelow(num - (DIRECT + Fanout(v)), Fanout(v));
  }

  /** A block of the layout is served iff its number is below 12 + n * n; the last n blocks that a
      doubly indirect block reaches are not. */
  lemma ServedExactly(disk: seq<u8>, v: Volume, f: Inode, num: nat)
    requires Mountable(v) && InodeOk(f)
    ensures |FileBlocks(disk, v, f)| == Limit(v) + Fanout(v)
    ensures num < |FileBlocks(disk, v, f)| ==>
              (MapBlock(disk, v, f, num) == Some(FileBlocks(disk, v, f)[num]) <==> num < Limit(v))
    ensures MapBlock(disk, v, f, num).Some? <==> num < Limit(v)
  {
    ThroughLength(disk, v, Pointers(disk, v, f.block[13]));
    if num < Limit(v) { MapFollowsLayout(disk, v, f, num); }
  }

  // ---------------------------------------------------------------- the file

  /** The indirect blocks on the way to block `num` of the file. */
  function Steps(disk: seq<u8>, v: Volume, f: Inode, num: nat): seq<u32>
    requires Mountable(v) && InodeOk(f)
  {
    var n := Fanout(v);
    if num < DIRECT then []
    else if num < DIRECT + n then [f.block[12]]
    else [f.block[13], Pointer(disk, v, f.block[13], Row(v, num))]
  }

  /** A hole: the block, or an indirect block on the way to it, has number 0. */
  predicate Hole(disk: seq<u8>, v: Volume, f: Inode, num: nat)
    requires Mountable(v) && InodeOk(f)
  {
    0 in Steps(disk, v, f, num) || (num < |FileBlocks(disk, v, f)| && FileBlocks(disk, v, f)[num] == 0)
  }

  /** Byte k of the file: the layout's, and 0 in a hole. */
  function FileByte(disk: seq<u8>, v: Volume, f: Inode, k: nat): u8
    requires Mountable(v) && InodeOk(f)
  {
    var blocks := FileBlocks(disk, v, f);
    if BlockOf(v, k) < |blocks| && !Hole(disk, v, f, BlockOf(v, k))
    then BlockByte(disk, v, blocks[BlockOf(v, k)], InBlock(v, k))
    else 0
  }

  /** Byte k as the reader takes it, through its own mapping; a block number of 0 is a block like
      any other to it. */
  function ReadByte(disk: seq<u8>, v: Volume, f: Inode, k: nat): u8
    requires Mountable(v) && InodeOk(f)
  {
    match MapBlock(disk, v, f, BlockOf(v, k))
    case Some(block) => BlockByte(disk, v, block, InBlock(v, k))
    case None => 0
  }

  /** The file, and what the reader takes for it, by position. */
  function Content(disk: seq<u8>, v: Volume, f: Inode): nat -> u8
    requires Mountable(v) && InodeOk(f)
  {
    k => FileByte(disk, v, f, k)
  }

  function AsRead(disk: seq<u8>, v: Volume, f: Inode): nat -> u8
    requires Mountable(v) && InodeOk(f)
  {
    k => ReadByte(disk, v, f, k)
  }

  function ReadSlice(disk: seq<u8>, v: Volume, f: Inode, from: nat, n: nat): (r: seq<u8>)
    requires Mountable(v) && InodeOk(f)
    ensures |r| == n
  {
    seq<u8>(n, i requires 0 <= i => ReadByte(disk, v, f, from + i))
  }

  /** The block the reader takes for a hole: block 0, or what it finds when it follows block 0 as if
      it held block numbers. */
  function ThroughZero(disk: seq<u8>, v: Volume, f: Inode, num: nat): u32
    requires Mountable(v) && InodeOk(f)
  {
    var n := Fanout(v);
    if num < DIRECT then 0
    else if num < DIRECT + n then
      if f.block[12] == 0 then Pointer(disk, v, 0, num - DIRECT) else 0
    else if f.block[13] == 0 then
      Pointer(disk, v, Pointer(disk, v, 0, Row(v, num)), Column(v, num))
    else if Pointer(disk, v, f.block[13], Row(v, num)) == 0 then Pointer(disk, v, 0, Column(v, num))
    else 0
  }

  /** The reader gets byte k of the file right: it is in no hole, or the byte the reader finds by way
      of block 0 happens to be 0. */
  predicate ReadsRight(disk: seq<u8>, v: Volume, f: Inode, k: nat)
    requires Mountable(v) && InodeOk(f)
  {
    Hole(disk, v, f, BlockOf(v, k)) ==>
      BlockByte(disk, v, ThroughZero(disk, v, f, BlockOf(v, k)), InBlock(v, k)) == 0
  }

  lemma HoleMapsThroughZero(disk: seq<u8>, v: Volume, f: Inode, num: nat)
    requires Mountable(v) && InodeOk(f) && num < Limit(v) && Hole(disk, v, f, num)
    ensures MapBlock(disk, v, f, num) == Some(ThroughZero(disk, v, f, num))
  {
    hide FileBlocks, Pointer, Row, Column;
    MapFollowsLayout(disk, v, f, num);
  }

  /** For every byte the reader serves: it equals the file's iff the block is in no hole, or the byte
      found by way of block 0 is 0. */
  lemma ReadsFileExactly(disk: seq<u8>, v: Volume, f: Inode, k: nat)
    requires Mountable(v) && InodeOk(f) && BlockOf(v, k) < Limit(v)
    ensures ReadByte(disk, v, f, k) == FileByte(disk, v, f, k) <==> ReadsRight(disk, v, f, k)
  {
    hide Hole, ThroughZero, MapBlock, FileBlocks, BlockByte, Limit, BlockOf, InBlock;
    ServedExactly(disk, v, f, BlockOf(v, k));
    MapFollowsLayout(disk, v, f, BlockOf(v, k));
    if Hole(disk, v, f, BlockOf(v, k)) { HoleMapsThroughZero(disk, v, f, BlockOf(v, k)); }
  }

  /** A file of holes only, on a disk of ones: its first byte is 0 and is read as 1. */
  lemma HoleIsReadAsBlockZero()
    ensures var disk, v, f := seq<u8>(1024, _ => 1), Volume(0, 0), Inode(seq(15, _ => 0));
            FileByte(disk, v, f, 0) == 0 && ReadByte(disk, v, f, 0) == 1 && !ReadsRight(disk, v, f, 0)
  {
    var disk, v, f := seq<u8>(1024, _ => 1), Volume(0, 0), Inode(seq(15, _ => 0));
    assert BlockOf(v, 0) == 0 && InBlock(v, 0) == 0;
    ServedExactly(disk, v, f, 0);
    assert FileBlocks(disk, v, f)[0] == 0;
    assert BlockByte(disk, v, 0, 0) == 1;
  }

  /** A buffer that starts with a block of the volume. */
  ghost predicate HoldsBlock(data: seq<u8>, disk: seq<u8>, v: Volume, block: u32)
    requires Mountable(v)
  {
    BlockSize(v) <= |data| && forall k :: 0 <= k < BlockSize(v) ==> data[k] == BlockByte(disk, v, block, k)
  }

  /** A stretch of the file within one block is a stretch of that block. */
  lemma PartMatches(disk: seq<u8>, v: Volume, f: Inode, data: seq<u8>, p: nat, n: nat)
    requires Mountable(v) && InodeOk(f) && InBlock(v, p) + n <= BlockSize(v) <= |data|
    requires MapBlock(disk, v, f, BlockOf(v, p)).Some?
    requires HoldsBlock(data, disk, v, MapBlock(disk, v, f, BlockOf(v, p)).value)
    ensures forall i :: InBlock(v, p) <= i < InBlock(v, p) + n ==>
              data[i] == ReadByte(disk, v, f, p + (i - InBlock(v, p)))
  {
    hide MapBlock, BlockByte, BlockOf, InBlock, BlockSize;
    var start := InBlock(v, p);
    forall i | start <= i < start + n
      ensures data[i] == ReadByte(disk, v, f, p + (i - start))
    {
      Within(v, p, i - start);
    }
  }

  // ---------------------------------------------------------------- positions and blocks

  lemma Within(v: Volume, p: nat, i: nat)
    requires Mountable(v) && InBlock(v, p) + i < BlockSize(v)
    ensures BlockOf(v, p + i) == BlockOf(v, p) && InBlock(v, p + i) == InBlock(v, p) + i
  {
    hide BlockSize;
    SameBlock(p, i, BlockSize(v));
  }

  /** From anywhere in a block to the start of the next. */
  lemma Next(v: Volume, p: nat)
    requires Mountable(v)
    ensures InBlock(v, p) < BlockSize(v)
    ensures BlockOf(v, p + (BlockSize(v) - InBlock(v, p))) == BlockOf(v, p) + 1
    ensures InBlock(v, p + (BlockSize(v) - InBlock(v, p))) == 0
  {
    hide BlockSize;
    NextBlock(p, BlockSize(v));
  }

  lemma Order(v: Volume, p: nat, q: nat)
    requires Mountable(v) && p <= q
    ensures BlockOf(v, p) <= BlockOf(v, q) && InBlock(v, p) < BlockSize(v) && InBlock(v, q) < BlockSize(v)
    ensures BlockOf(v, p) < BlockOf(v, q) ==> p + (BlockSize(v) - InBlock(v, p)) <= q
    ensures BlockOf(v, p) == BlockOf(v, q) ==> InBlock(v, q) - InBlock(v, p) == q - p
  {
    hide BlockSize;
    BlockOrder(p, q, BlockSize(v));
  }

  lemma BlockNotAbove(v: Volume, p: nat)
    requires Mountable(v)
    ensures BlockOf(v, p) <= p
  {
    hide BlockSize;
    QuotientSmaller(p, BlockSize(v));
  }

  lemma SameBlock(p: nat, i: nat, bs: nat)
    requires bs > 0 && p % bs + i < bs
    ensures (p + i) / bs == p / bs && (p + i) % bs == p % bs + i
  {
    assert p + i == p / bs * bs + (p % bs + i);
    Quotient(p / bs, p % bs + i, bs);
  }

  /** From anywhere in a block to the start of the next. */
  lemma NextBlock(p: nat, bs: nat)
    requires bs > 0
    ensures (p + (bs - p % bs)) / bs == p / bs + 1 && (p + (bs - p % bs)) % bs == 0
  {
    assert p == p / bs * bs + p % bs;
    assert p + (bs - p % bs) == (p / bs + 1) * bs + 0;
    Quotient(p / bs + 1, 0, bs);
  }

  lemma BlockOrder(p: nat, q: nat, bs: nat)
    requires bs > 0 && p <= q
    ensures p / bs <= q / bs
    ensures p / bs < q / bs ==> p + (bs - p % bs) <= q
    ensures p / bs == q / bs ==> q % bs - p % bs == q - p
  {
    var a, b := p / bs, q / bs;
    assert p == a * bs + p % bs && q == b * bs + q % bs;
    ProductOrder(a, b + 1, bs);
    ProductOrder(b, a + 1, bs);
  }

  // ---------------------------------------------------------------- what a read needs of the disk

  predicate BlockOnDisk(disk: seq<u8>, v: Volume, wide: bool, block: u32)
    requires Mountable(v)
  {
    AtaDriver.Spans(disk, FirstSector(v, block), PerBlock(v), wide)
  }

  /** The sector number of a block on the disk does not wrap around. */
  lemma NoWrap(disk: seq<u8>, v: Volume, wide: bool, block: u32)
    requires Mountable(v) && BlockOnDisk(disk, v, wide, block)
    ensures (block * PerBlock(v) % 0x1_0000_0000 + v.lba) % 0x1_0000_0000 == FirstSector(v, block)
  {
    assert FirstSector(v, block) < 0x1000_0000;
  }

  /** Block `num` of the file, and the indirect blocks on the way to it, are on the disk. */
  predicate Reachable(disk: seq<u8>, v: Volume, wide: bool, f: Inode, num: nat)
    requires Mountable(v) && InodeOk(f)
  {
    num < Limit(v) ==>
      && BlockOnDisk(disk, v, wide, MapBlock(disk, v, f, num).value)
      && forall b :: b in Steps(disk, v, f, num) ==> BlockOnDisk(disk, v, wide, b)
  }

  lemma StepsOnDisk(disk: seq<u8>, v: Volume, wide: bool, f: Inode, num: nat)
    requires Mountable(v) && InodeOk(f) && num < Limit(v) && Reachable(disk, v, wide, f, num)
    ensures BlockOnDisk(disk, v, wide, MapBlock(disk, v, f, num).value)
    ensures var n := Fanout(v);
            && (DIRECT <= num < DIRECT + n ==> BlockOnDisk(disk, v, wide, f.block[12]))
            && (DIRECT + n <= num ==>
                  && BlockOnDisk(disk, v, wide, f.block[13])
                  && BlockOnDisk(disk, v, wide, Pointer(disk, v, f.block[13], Row(v, num))))
  {
    var steps := Steps(disk, v, f, num);
    assert |steps| > 0 ==> steps[0] in steps;
    assert |steps| > 1 ==> steps[1] in steps;
  }

  /** The last block a read looks at; a read of nothing looks at the block it starts in. */
  function LastBlock(v: Volume, from: nat, size: nat): nat
    requires Mountable(v)
  {
    if size == 0 then BlockOf(v, from) else BlockOf(v, from + size - 1)
  }

  /** A read that starts and ends in one block looks at that block only; any other at the blocks
      up to the one that holds its last byte. */
  lemma Touched(v: Volume, from: nat, size: nat)
    requires Mountable(v)
    ensures BlockOf(v, from) <= LastBlock(v, from, size) <= BlockOf(v, from + size)
    ensures BlockOf(v, from) == BlockOf(v, from + size) ==> LastBlock(v, from, size) == BlockOf(v, from)
    ensures BlockOf(v, from) < BlockOf(v, from + size) ==> size > 0
  {
    hide BlockOf, InBlock, BlockSize;
    if size > 0 {
      Order(v, from, from + size - 1);
      Order(v, from + size - 1, from + size);
    }
  }

  ghost predicate RangeReachable(disk: seq<u8>, v: Volume, wide: bool, f: Inode, from: nat, size: nat)
    requires Mountable(v) && InodeOk(f)
  {
    forall b :: BlockOf(v, from) <= b <= LastBlock(v, from, size) ==> Reachable(disk, v, wide, f, b)
  }

  /** How far a read has got: `read` bytes, and the next one is at `soff` in block `sblk`. */
  ghost predicate Partway(v: Volume, from: nat, size: nat, read: nat, sblk: nat, soff: nat)
    requires Mountable(v)
  {
    && read < size && sblk == BlockOf(v, from + read) && soff == InBlock(v, from + read)
    && BlockOf(v, from) <= sblk <= LastBlock(v, from, size)
    && (read > 0 ==> soff == 0)
  }

  /** The bytes of the next block that belong to the read. */
  function Share(v: Volume, from: nat, size: nat, sblk: nat, soff: nat): int
    requires Mountable(v)
  {
    if sblk != BlockOf(v, from + size) then BlockSize(v) - soff else InBlock(v, from + size)
  }

  lemma StartPartway(v: Volume, from: nat, size: nat)
    requires Mountable(v) && BlockOf(v, from) < BlockOf(v, from + size)
    ensures size > 0 && Partway(v, from, size, 0, BlockOf(v, from), InBlock(v, from))
  {
    hide BlockOf, InBlock, LastBlock;
    Touched(v, from, size);
  }

  /** What one more block adds. */
  lemma OneMore(v: Volume, from: nat, size: nat, read: nat, sblk: nat, soff: nat)
    requires Mountable(v) && Partway(v, from, size, read, sblk, soff)
    requires BlockOf(v, from) < BlockOf(v, from + size)
    ensures var n := Share(v, from, size, sblk, soff);
            && 0 < n && read + n <= size && soff + n <= BlockSize(v)
            && (read + n < size ==> Partway(v, from, size, read + n, sblk + 1, 0) && sblk < LastBlock(v, from, size))
            && (read + n == size ==> sblk == LastBlock(v, from, size))
  {
    hide BlockOf, InBlock, BlockSize;
    if sblk == BlockOf(v, from + size) {
      LastPart(v, from, size, read);
    } else {
      FullPart(v, from, size, read);
    }
  }

  /** In the block where the range ends: the rest of the range, from the start of the block on. */
  lemma LastPart(v: Volume, from: nat, size: nat, read: nat)
    requires Mountable(v) && read < size && BlockOf(v, from + read) == BlockOf(v, from + size)
    requires BlockOf(v, from) < BlockOf(v, from + size) && (read > 0 ==> InBlock(v, from + read) == 0)
    ensures InBlock(v, from + read) == 0 && InBlock(v, from + size) == size - read
    ensures InBlock(v, from + size) <= BlockSize(v) && LastBlock(v, from, size) == BlockOf(v, from + size)
  {
    hide BlockOf, InBlock, BlockSize;
    Order(v, from + read, from + size);
    Order(v, from + read, from + size - 1);
    Order(v, from + size - 1, from + size);
  }

  /** Before it: the rest of the block. */
  lemma FullPart(v: Volume, from: nat, size: nat, read: nat)
    requires Mountable(v) && read < size && BlockOf(v, from + read) != BlockOf(v, from + size)
    requires BlockOf(v, from) <= BlockOf(v, from + read)
    ensures InBlock(v, from + read) < BlockSize(v)
    ensures var n := BlockSize(v) - InBlock(v, from + read);
            && read + n <= size
            && (read + n == size ==> BlockOf(v, from + read) == LastBlock(v, from, size))
            && (read + n < size ==>
                  && BlockOf(v, from + read) < LastBlock(v, from, size)
                  && BlockOf(v, from + (read + n)) == BlockOf(v, from + read) + 1 && InBlock(v, from + (read + n)) == 0)
  {
    hide BlockOf, InBlock, BlockSize;
    var p := from + read;
    Order(v, p, from + size);
    Next(v, p);
    var q := p + (BlockSize(v) - InBlock(v, p));
    assert q == from + (read + (BlockSize(v) - InBlock(v, p)));
    Order(v, p, from + size - 1);
    if q < from + size { Order(v, q, from + size - 1); }
  }

  lemma NextReachable(disk: seq<u8>, v: Volume, wide: bool, f: Inode, from: nat, size: nat, read: nat, sblk: nat, soff: nat)
    requires Mountable(v) && InodeOk(f) && Partway(v, from, size, read, sblk, soff)
    requires BlockOf(v, from) < BlockOf(v, from + size)
    requires RangeReachable(disk, v, wide, f, from, size) && from + size < 0x1_0000_0000
    ensures sblk == BlockOf(v, from + read)
    ensures var n := Share(v, from, size, sblk, soff);
            0 <= n && read + n <= size && InBlock(v, from + read) + n <= BlockSize(v)
    ensures BlockOf(v, from + read) < 0x1_0000_0000
    ensures Reachable(disk, v, wide, f, BlockOf(v, from + read))
  {
    hide BlockOf, InBlock, BlockSize, Share, Reachable, LastBlock;
    OneMore(v, from, size, read, sblk, soff);
    BlockNotAbove(v, from + read);
  }

  /** A range within one block. */
  lemma OneBlock(disk: seq<u8>, v: Volume, wide: bool, f: Inode, from: nat, size: nat)
    requires Mountable(v) && InodeOk(f) && BlockOf(v, from) == BlockOf(v, from + size) && from < 0x1_0000_0000
    requires RangeReachable(disk, v, wide, f, from, size)
    ensures InBlock(v, from + size) - InBlock(v, from) == size && InBlock(v, from) + size <= BlockSize(v)
    ensures BlockOf(v, from) < 0x1_0000_0000 && Reachable(disk, v, wide, f, BlockOf(v, from))
    ensures LastBlock(v, from, size) == BlockOf(v, from)
  {
    hide BlockOf, InBlock, BlockSize, Reachable, LastBlock;
    Touched(v, from, size);
    Order(v, from, from + size);
    BlockNotAbove(v, from);
  }

  lemma BlocksInOrder(v: Volume, from: nat, size: nat)
    requires Mountable(v)
    ensures BlockOf(v, from) <= BlockOf(v, from + size)
  {
    Order(v, from, from + size);
  }

  lemma QuotientSmaller(p: nat, bs: nat)
    requires bs > 0
    ensures p / bs <= p
  {
    var q := p / bs;
    assert p == q * bs + p % bs;
    ProductOrder(bs, 1, q);
  }

  lemma CopyFills(next: seq<u8>, was: seq<u8>, data: seq<u8>, at: nat, n: nat, disk: seq<u8>, v: Volume, f: Inode, p: nat)
    requires Mountable(v) && InodeOk(f) && InBlock(v, p) + n <= BlockSize(v) <= |data|
    requires MapBlock(disk, v, f, BlockOf(v, p)).Some?
    requires HoldsBlock(data, disk, v, MapBlock(disk, v, f, BlockOf(v, p)).value)
    requires Copied(next, was, data, InBlock(v, p), at, n)
    ensures Filled(next, was, at, n, AsRead(disk, v, f), p)
  {
    hide ReadByte, MapBlock, BlockByte, BlockOf, InBlock, BlockSize;
    PartMatches(disk, v, f, data, p, n);
  }

  /** Every byte of a range is read right. */
  ghost predicate RangeReadsRight(disk: seq<u8>, v: Volume, f: Inode, from: nat, size: nat)
    requires Mountable(v) && InodeOk(f)
  {
    forall k :: from <= k < from + size ==> ReadsRight(disk, v, f, k)
  }

  /** No block of a range is a hole. */
  ghost predicate HoleFree(disk: seq<u8>, v: Volume, f: Inode, from: nat, size: nat)
    requires Mountable(v) && InodeOk(f)
  {
    forall k :: from <= k < from + size ==> !Hole(disk, v, f, BlockOf(v, k))
  }

  /** What was read is the file exactly when every byte of the range is read right, so in particular
      when the range is free of holes. */
  lemma FileExactly(dst: seq<u8>, was: seq<u8>, at: nat, size: nat, disk: seq<u8>, v: Volume, f: Inode, from: nat)
    requires Mountable(v) && InodeOk(f) && at + size <= |dst| && (size > 0 ==> LastBlock(v, from, size) < Limit(v))
    requires Filled(dst, was, at, size, AsRead(disk, v, f), from)
    ensures Filled(dst, was, at, size, Content(disk, v, f), from) <==> RangeReadsRight(disk, v, f, from, size)
    ensures HoleFree(disk, v, f, from, size) ==> Filled(dst, was, at, size, Content(disk, v, f), from)
  {
    hide ReadByte, FileByte, BlockOf, BlockByte, Hole, ThroughZero, Filled;
    forall k | from <= k < from + size
      ensures AsRead(disk, v, f)(k) == Content(disk, v, f)(k) <==> ReadsRight(disk, v, f, k)
    {
      Order(v, k, from + size - 1);
      ReadsFileExactly(disk, v, f, k);
    }
    FilledAgree(dst, was, at, size, AsRead(disk, v, f), Content(disk, v, f), from);
  }
}
