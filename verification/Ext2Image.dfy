/** A file's block numbers as ext2 lays them down on the disk, byte by byte, and the reader that finds
    them again. */
module Ext2Image {
  import opened Prim
  import opened Arith
  import opened Storage
  import opened Ext2

  function Power256(k: nat): (p: nat)
    ensures p >= 1
  {
    if k == 0 then 1 else 256 * Power256(k - 1)
  }

  /** The bytes of a list of numbers, four each, the lowest first. */
  function Bytes(ns: seq<u32>): (b: seq<u8>)
    ensures |b| == 4 * |ns|
    ensures forall i, k :: 0 <= i < |ns| && 0 <= k < 4 ==> b[4 * i + k] == ns[i] / Power256(k) % 256
  {
    if ns == [] then []
    else
      var n := ns[|ns| - 1];
      Bytes(ns[..|ns| - 1])
      + [n / Power256(0) % 256, n / Power256(1) % 256, n / Power256(2) % 256, n / Power256(3) % 256]
  }

  /** The size of a block, as the superblock gives it. */
  function SizeOf(v: Volume): nat
    requires Mountable(v)
  {
    if v.log == 0 then 1024 else if v.log == 1 then 2048 else 4096
  }

  /** Where a block starts on the disk. */
  function Start(v: Volume, block: u32): nat
    requires Mountable(v)
  {
    512 * v.lba + SizeOf(v) * block
  }

  /** The block starts with these numbers. */
  ghost predicate HoldsNumbers(disk: seq<u8>, v: Volume, block: u32, ns: seq<u32>)
    requires Mountable(v)
  {
    && 4 * |ns| <= SizeOf(v) && Start(v, block) + 4 * |ns| <= |disk|
    && disk[Start(v, block)..Start(v, block) + 4 * |ns|] == Bytes(ns)
  }

  function Min(a: nat, b: nat): nat { if a < b then a else b }

  /** Row r of the numbers behind the doubly indirect block. */
  function RowOf(v: Volume, ns: seq<u32>, r: nat): seq<u32>
    requires Mountable(v)
  {
    var per := SizeOf(v) / 4;
    var from := 12 + per + r * per;
    if from > |ns| then [] else ns[from..Min(from + per, |ns|)]
  }

  /** The blocks of the file are `ns`, in order: twelve in the inode, then a block full of them, then a
      block of the numbers `tops` of blocks full of them. */
  ghost predicate StoresMap(disk: seq<u8>, v: Volume, f: Inode, ns: seq<u32>, tops: seq<u32>)
    requires Mountable(v)
  {
    var per := SizeOf(v) / 4;
    && InodeOk(f)
    && (forall i :: 0 <= i < 12 && i < |ns| ==> f.block[i] == ns[i])
    && (|ns| > 12 ==> HoldsNumbers(disk, v, f.block[12], ns[12..Min(12 + per, |ns|)]))
    && (|ns| > 12 + per ==>
          && HoldsNumbers(disk, v, f.block[13], tops)
          && |tops| <= per && |ns| <= 12 + per + |tops| * per
          && forall r :: 0 <= r < |tops| ==> HoldsNumbers(disk, v, tops[r], RowOf(v, ns, r)))
  }

  lemma SizesAgree(v: Volume)
    requires Mountable(v)
    ensures SizeOf(v) == BlockSize(v) == 4 * Fanout(v) == 512 * PerBlock(v)
  {
  }

  lemma StartAgrees(v: Volume, block: u32)
    requires Mountable(v)
    ensures Start(v, block) == 512 * FirstSector(v, block)
  {
  }

  lemma FourBytes(n: u32)
    ensures LittleEndian(n / Power256(0) % 256, n / Power256(1) % 256, n / Power256(2) % 256, n / Power256(3) % 256) == n
  {
    assert Power256(1) == 0x100 && Power256(2) == 0x1_0000 && Power256(3) == 0x100_0000;
    DivideTwice(n, 0x100);
    DivideTwice(n, 0x1_0000);
    Digits256(n, n / 0x100, n / 0x1_0000, n / 0x100_0000);
  }

  lemma Digits256(n: u32, n1: nat, n2: nat, n3: nat)
    requires n1 == n / 0x100 && n2 == n1 / 0x100 && n3 == n2 / 0x100
    ensures n3 < 0x100 && n == n % 256 + 0x100 * (n1 % 256) + 0x1_0000 * (n2 % 256) + 0x100_0000 * (n3 % 256)
  {
    Divide(n, 0x100);
    Divide(n1, 0x100);
    Divide(n2, 0x100);
  }

  lemma DivideTwice(n: nat, a: nat)
    requires a > 0
    ensures n / (0x100 * a) == n / a / 0x100
  {
    var m := n / a;
    var q, r := m / 0x100, m % 0x100;
    Divide(n, a);
    ProductOrder(0xff, r, a);
    ScaledSum(a, m, q, r);
    Quotient(q, r * a + n % a, 0x100 * a);
  }

  lemma ScaledSum(a: nat, m: nat, q: nat, r: nat)
    requires m == 0x100 * q + r
    ensures m * a == q * (0x100 * a) + r * a
  {
  }

  /** The reader takes number i of a block for what it is. */
  lemma PointerDecodes(disk: seq<u8>, v: Volume, block: u32, ns: seq<u32>, i: nat)
    requires Mountable(v) && HoldsNumbers(disk, v, block, ns) && i < |ns|
    ensures Pointer(disk, v, block, i) == ns[i]
  {
    hide LittleEndian, Power256, Cell;
    StartAgrees(v, block);
    var s := Start(v, block);
    forall k | 0 <= k < 4
      ensures BlockByte(disk, v, block, 4 * i + k) == ns[i] / Power256(k) % 256
    {
      assert disk[s..s + 4 * |ns|][4 * i + k] == disk[s + (4 * i + k)];
      CellIn(disk, s + (4 * i + k));
    }
    FourBytes(ns[i]);
    assert BlockByte(disk, v, block, 4 * i + 0) == ns[i] / Power256(0) % 256;
  }

  lemma CellIn(disk: seq<u8>, i: nat)
    requires i < |disk|
    ensures Cell(disk, i) == disk[i]
  {
  }

  /** Every block number the file was given is the one the reader looks up, as far as it serves blocks. */
  lemma MapDecodes(disk: seq<u8>, v: Volume, f: Inode, ns: seq<u32>, tops: seq<u32>, num: nat)
    requires Mountable(v) && StoresMap(disk, v, f, ns, tops) && num < |ns| && num < Limit(v)
    ensures MapBlock(disk, v, f, num) == Some(ns[num])
  {
    hide HoldsNumbers, Pointer, Limit, BlockSize;
    SizesAgree(v);
    var per := Fanout(v);
    if 12 <= num < 12 + per {
      PointerDecodes(disk, v, f.block[12], ns[12..Min(12 + per, |ns|)], num - 12);
    } else if 12 + per <= num {
      var r, c := Row(v, num), Column(v, num);
      RowColumn(v, num, |tops|, |ns|);
      PointerDecodes(disk, v, f.block[13], tops, r);
      PointerDecodes(disk, v, tops[r], RowOf(v, ns, r), c);
    }
  }

  lemma RowColumn(v: Volume, num: nat, rows: nat, n: nat)
    requires Mountable(v) && 12 + Fanout(v) <= num < n <= 12 + Fanout(v) + rows * Fanout(v)
    ensures Row(v, num) < rows && num == 12 + Fanout(v) + Row(v, num) * Fanout(v) + Column(v, num)
  {
    var per := Fanout(v);
    hide Fanout;
    Divide(num - (12 + per), per);
    if Row(v, num) >= rows { ProductOrder(Row(v, num), rows, per); }
  }

  /** The bytes of the file whose blocks are `ns`. */
  function ByteOf(disk: seq<u8>, v: Volume, ns: seq<u32>, p: nat): u8
    requires Mountable(v)
  {
    var b := p / SizeOf(v);
    if b < |ns| && Start(v, ns[b]) + p % SizeOf(v) < |disk| then disk[Start(v, ns[b]) + p % SizeOf(v)] else 0
  }

  function Image(disk: seq<u8>, v: Volume, ns: seq<u32>): nat -> u8
    requires Mountable(v)
  {
    p => ByteOf(disk, v, ns, p)
  }

  lemma ReadDecodes(disk: seq<u8>, v: Volume, f: Inode, ns: seq<u32>, tops: seq<u32>, p: nat)
    requires Mountable(v) && StoresMap(disk, v, f, ns, tops) && BlockOf(v, p) < |ns| && BlockOf(v, p) < Limit(v)
    ensures ReadByte(disk, v, f, p) == ByteOf(disk, v, ns, p)
  {
    hide StoresMap, Limit, MapBlock;
    SizesAgree(v);
    MapDecodes(disk, v, f, ns, tops, BlockOf(v, p));
    StartAgrees(v, ns[BlockOf(v, p)]);
  }

  /** What was read is what the file's own blocks hold. */
  lemma FilledDecodes(dst: seq<u8>, was: seq<u8>, at: nat, size: nat, disk: seq<u8>, v: Volume, f: Inode, from: nat,
                      ns: seq<u32>, tops: seq<u32>)
    requires Mountable(v) && InodeOk(f) && StoresMap(disk, v, f, ns, tops) && from + size <= |ns| * SizeOf(v)
    requires at + size <= |dst| && (size > 0 ==> LastBlock(v, from, size) < Limit(v))
    requires Filled(dst, was, at, size, AsRead(disk, v, f), from)
    ensures Filled(dst, was, at, size, Image(disk, v, ns), from)
  {
    hide StoresMap, ReadByte, ByteOf, Filled, BlockOf, Limit;
    forall k | from <= k < from + size
      ensures AsRead(disk, v, f)(k) == Image(disk, v, ns)(k)
    {
      Order(v, k, from + size - 1);
      BlockBelow(v, k, |ns|);
      ReadDecodes(disk, v, f, ns, tops, k);
    }
    FilledAgree(dst, was, at, size, AsRead(disk, v, f), Image(disk, v, ns), from);
  }

  lemma BlockBelow(v: Volume, p: nat, n: nat)
    requires Mountable(v) && p < n * SizeOf(v)
    ensures BlockOf(v, p) < n
  {
    SizesAgree(v);
    var bs := BlockSize(v);
    hide BlockSize, SizeOf;
    Divide(p, bs);
    if p / bs >= n { ProductOrder(p / bs, n, bs); }
  }

  /** The two facts for every layout of the file at once. */
  lemma MapDecodesAll(disk: seq<u8>, v: Volume, f: Inode, num: nat)
    requires Mountable(v) && InodeOk(f)
    ensures forall ns, tops :: StoresMap(disk, v, f, ns, tops) && num < |ns| && num < Limit(v) ==>
              MapBlock(disk, v, f, num) == Some(ns[num])
  {
    hide StoresMap, MapBlock;
    forall ns, tops | StoresMap(disk, v, f, ns, tops) && num < |ns| && num < Limit(v)
      ensures MapBlock(disk, v, f, num) == Some(ns[num])
    {
      MapDecodes(disk, v, f, ns, tops, num);
    }
  }

  lemma FilledDecodesAll(dst: seq<u8>, was: seq<u8>, at: nat, size: nat, disk: seq<u8>, v: Volume, f: Inode, from: nat)
    requires Mountable(v) && InodeOk(f) && at + size <= |dst| && (size > 0 ==> LastBlock(v, from, size) < Limit(v))
    requires Filled(dst, was, at, size, AsRead(disk, v, f), from)
    ensures forall ns, tops :: StoresMap(disk, v, f, ns, tops) && from + size <= |ns| * SizeOf(v) ==>
              Filled(dst, was, at, size, Image(disk, v, ns), from)
  {
    hide StoresMap, Filled, SizeOf, AsRead, Image;
    forall ns, tops | StoresMap(disk, v, f, ns, tops) && from + size <= |ns| * SizeOf(v)
      ensures Filled(dst, was, at, size, Image(disk, v, ns), from)
    {
      FilledDecodes(dst, was, at, size, disk, v, f, from, ns, tops);
    }
  }
}
