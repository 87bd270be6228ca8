/** The HFS+ reader over the driver: extents, sector by sector reads, and open files. */
module HfsReader {
  import opened Prim
  import opened Arith
  import opened AtaDriver
  import opened Storage
  import opened HfsPlus

  datatype Place = Place(block: u32, ofs: u32, rem: u32)

  class Reader {
    const dev: Driver
    const v: Volume
    const blkBuf: array<u8>

    ghost predicate Valid() reads dev.Repr {
      dev.Valid() && Mountable(v) && blkBuf.Length == 512 && blkBuf != dev.cachedata && blkBuf != dev.buff
    }

    ghost function Disk(): seq<u8>
      requires Valid()
      reads dev.Repr
    {
      dev.D().disk
    }

    ghost predicate Foreign(dst: array<u8>) { dst != blkBuf && dst != dev.cachedata && dst != dev.buff }

    constructor (dev: Driver, v: Volume)
      requires dev.Valid() && Mountable(v)
      ensures Valid() && this.dev == dev && this.v == v && fresh(blkBuf)
    {
      this.dev, this.v := dev, v;
      blkBuf := new u8[512](_ => 0);
    }

    /** Finds the extent that holds a position: where on the disk it is and how many bytes the
        extent has from there.  None stands for running off the table. */
    method GetExtent(extents: seq<Extent>, position: u32) returns (r: Option<Place>)
      requires Mountable(v) && |extents| == 8 && Allocated(v, extents) < 0x1_0000_0000
      requires forall k :: 0 <= k < Allocated(v, extents) ==> 0 <= BytePos(v, extents, k) < 512 * 0x1000_0000
      ensures r.Some? <==> position < Allocated(v, extents)
      ensures r.Some? ==> r.value.rem > 0 && Piece(v, extents, position, r.value.block, r.value.ofs, r.value.rem)
    {
      hide BytePos, Allocated, Before, Piece, ClusterOf, InsideCluster, RestLength, RestSector;
      var clusterNo: nat, left: nat := ClusterOf(v, position), InsideCluster(v, position);
      BeforeNone(extents);
      var i := 0;
      while i < EXTENTS && clusterNo >= extents[i].count
        invariant i <= EXTENTS && ClusterOf(v, position) == Before(extents, i) + clusterNo
      {
        clusterNo := clusterNo - extents[i].count;
        BeforeNext(extents, i);
        i := i + 1;
      }
      if i == EXTENTS {
        PastTheEnd(v, extents, position);
        return None;
      }
      RestOfExtent(v, extents, position, i, clusterNo);
      PieceFits(v, extents, position, RestSector(v, extents[i], clusterNo, left), left % 512,
                RestLength(v, extents[i], clusterNo, left));
      var rem := RestLength(v, extents[i], clusterNo, left) % 0x1_0000_0000;
      var block := RestSector(v, extents[i], clusterNo, left) % 0x1_0000_0000;
      return Some(Place(block, left % 512, rem));
    }

    /** One sector, or part of it.  A whole sector goes straight to an aligned destination, past
        the cache; anything else takes the way through the buffer. */
    method ReadSectorPart(dst: array<u8>, at: nat, block: u32, ofs: u32, n: u32, aligned: bool)
      requires Valid() && Foreign(dst) && Spans(Disk(), block, 1, dev.Wide()) && ofs + n <= 512 && at + n <= dst.Length
      modifies dev`ctl, dev`cacheticks, dev.cachedata, dev.cacheaddr, dev.cachetick, dev.buff, blkBuf, dst
      ensures Valid() && Disk() == old(Disk())
      ensures forall k :: 0 <= k < dst.Length ==>
                dst[k] == if at <= k < at + n then Cell(Disk(), 512 * block + ofs + (k - at)) else old(dst[k])
    {
      hide Spans, Cell;
      if n != 512 || !aligned {
        Load(dev, blkBuf, 0, block, 1, n != 512);
        Copy(blkBuf, ofs, dst, at, n);
      } else {
        Load(dev, dst, at, block, 1, false);
      }
    }

    /** The next sector of a piece, or as much of it as is wanted, after `done` bytes of a range
        have arrived. */
    method ReadNext(extents: seq<Extent>, dst: array<u8>, at: nat, from: u32, done: u32, toRead: u32,
                    block: u32, ofs: u32, rem: u32, aligned: bool, ghost was: seq<u8>)
      returns (n: u32)
      requires Valid() && Foreign(dst) && OnDisk(Disk(), v, dev.Wide(), extents)
      requires at + done + toRead <= dst.Length && toRead > 0
      requires Piece(v, extents, from + done, block, ofs, rem)
      requires Filled(dst[..], was, at, done, Content(Disk(), v, extents), from)
      modifies dev`ctl, dev`cacheticks, dev.cachedata, dev.cacheaddr, dev.cachetick, dev.buff, blkBuf, dst
      ensures Valid() && Disk() == old(Disk())
      ensures 0 < n <= rem && n <= toRead && block < 0x1000_0000
      ensures Filled(dst[..], was, at, done + n, Content(Disk(), v, extents), from)
      ensures n < toRead && n < rem ==> Piece(v, extents, from + done + n, block + 1, 0, rem - n)
    {
      hide Piece, Content, Filled, OnDisk, Spans, Cell;
      NextPiece(v, extents, from + done, block, ofs, rem);
      PieceOnDisk(Disk(), v, dev.Wide(), extents, from + done, block, ofs, rem);
      n := if 512 - ofs > toRead then toRead else 512 - ofs;
      ghost var before, disk := dst[..], Disk();
      ReadSectorPart(dst, at + done, block, ofs, n, aligned);
      PieceFills(dst[..], before, disk, v, extents, from + done, block, ofs, rem, at + done, n);
      FilledMore(dst[..], before, was, at, done, n, Content(disk, v, extents), from);
    }

    /** A range of the file, extent by extent and sector by sector, to the address `addr`. */
    method ReadRange(extents: seq<Extent>, dst: array<u8>, at: nat, from: u32, count: u32, addr: u32)
      requires Valid() && Foreign(dst) && |extents| == 8 && OnDisk(Disk(), v, dev.Wide(), extents)
      requires at + count <= dst.Length && from + count <= Allocated(v, extents)
      modifies dev`ctl, dev`cacheticks, dev.cachedata, dev.cacheaddr, dev.cachetick, dev.buff, blkBuf, dst
      ensures Valid() && Disk() == old(Disk())
      ensures Filled(dst[..], old(dst[..]), at, count, Content(Disk(), v, extents), from)
    {
      hide Piece, Content, BytePos, Allocated, Spans;
      ghost var disk, was := Disk(), dst[..];
      var toRead: nat, done: nat := count, 0;
      assert Allocated(v, extents) < 0x1_0000_0000;
      while toRead > 0
        invariant done + toRead == count && Valid() && Disk() == disk
        invariant Filled(dst[..], was, at, done, Content(disk, v, extents), from)
      {
        var place := GetExtent(extents, from + done);
        var block, ofs, rem := place.value.block, place.value.ofs, place.value.rem;
        ghost var left := toRead;
        while toRead > 0 && rem > 0
          invariant done + toRead == count && Valid() && Disk() == disk
          invariant Filled(dst[..], was, at, done, Content(disk, v, extents), from)
          invariant toRead > 0 && rem > 0 ==> Piece(v, extents, from + done, block, ofs, rem)
          invariant toRead < left || (toRead == left && rem > 0)
          decreases toRead
        {
          var n := ReadNext(extents, dst, at, from, done, toRead, block, ofs, rem, (addr + done) % 4 == 0, was);
          ofs, block := 0, block + 1;
          rem, toRead, done := rem - n, toRead - n, done + n;
        }
      }
    }
  }

  lemma BeforeNone(extents: seq<Extent>)
    ensures Before(extents, 0) == 0
  {
  }

  lemma PastTheEnd(v: Volume, extents: seq<Extent>, p: nat)
    requires Mountable(v) && |extents| == 8 && ClusterOf(v, p) >= Before(extents, EXTENTS)
    ensures p >= Allocated(v, extents)
  {
    assert extents[..EXTENTS] == extents;
    Divide(p, v.cluster);
    ProductOrder(ClusterOf(v, p), |Clusters(extents)|, v.cluster);
  }

  /** The place found is on the disk, so neither the sector number nor the rest wraps around. */
  lemma PieceFits(v: Volume, extents: seq<Extent>, p: nat, block: nat, ofs: nat, rem: nat)
    requires Mountable(v) && Allocated(v, extents) < 0x1_0000_0000 && Piece(v, extents, p, block, ofs, rem)
    requires forall k :: 0 <= k < Allocated(v, extents) ==> 0 <= BytePos(v, extents, k) < 512 * 0x1000_0000
    ensures p < Allocated(v, extents) && rem < 0x1_0000_0000 && block < 0x1000_0000
  {
    hide BytePos, Allocated;
    assert BytePos(v, extents, p) < 512 * 0x1000_0000;
  }

  // ---------------------------------------------------------------- open files

  class File {
    const extents: seq<Extent>
    const length: int
    var position: u32

    /** The length is a signed number. */
    ghost predicate Valid() { |extents| == 8 && -0x8000_0000 <= length < 0x8000_0000 }

    constructor (extents: seq<Extent>, length: u32)
      requires |extents| == 8
      ensures Valid() && this.extents == extents && this.length == Signed32(length) && position == 0
    {
      this.extents, this.length, position := extents, Signed32(length), 0;
    }

    /** Moves the position iff the target is in the file. */
    method SeekTo(offset: int, whence: Whence) returns (code: int)
      requires Valid() && -0x8000_0000 <= offset < 0x8000_0000
      modifies this
      ensures var to := Signed32(offset + match whence case Cur => old(position) case End => length case _ => 0);
              if whence == OtherWhence then code == -2 && position == old(position)
              else if 0 <= to <= length then code == 0 && position == to
              else code == -1 && position == old(position)
    {
      var to := offset;
      match whence {
        case Cur => to := Signed32(to + position);
        case Set =>
        case End => to := Signed32(to + length);
        case OtherWhence => return -2;
      }
      if to < 0 || to > length { return -1; }
      position := to;
      return 0;
    }

    /** Reads `nmemb` items of `size` bytes to the address `addr`, as far as the reader's own bound
        goes.  The extents have to cover what it takes. */
    method ReadItems(reader: Reader, dst: array<u8>, at: nat, addr: u32, size: u32, nmemb: u32) returns (items: u32)
      requires Valid() && reader.Valid() && reader.Foreign(dst) && size > 0
      requires OnDisk(reader.Disk(), reader.v, reader.dev.Wide(), extents)
      requires var n := Clamped(position, length % 0x1_0000_0000, Wanted(size, nmemb));
               at + n <= dst.Length && position + n <= Allocated(reader.v, extents)
      modifies this, reader.dev`ctl, reader.dev`cacheticks, reader.dev.cachedata, reader.dev.cacheaddr, reader.dev.cachetick,
               reader.dev.buff, reader.blkBuf, dst
      ensures Valid() && reader.Valid() && reader.Disk() == old(reader.Disk())
      ensures var n := Clamped(old(position), length % 0x1_0000_0000, Wanted(size, nmemb));
              && items == Items(n, size) && position == old(position) + n
              && Filled(dst[..], old(dst[..]), at, n, Content(reader.Disk(), reader.v, extents), old(position))
    {
      hide Wanted, Items, Clamped, Content, OnDisk, Filled;
      var toRead := Clamped(position, length % 0x1_0000_0000, Wanted(size, nmemb));
      Below4GiB(reader.Disk(), reader.v, reader.dev.Wide(), extents);
      reader.ReadRange(extents, dst, at, position, toRead, addr);
      position := position + toRead;
      return Items(toRead, size);
    }
  }

  lemma Below4GiB(disk: seq<u8>, v: Volume, wide: bool, extents: seq<Extent>)
    requires Mountable(v) && OnDisk(disk, v, wide, extents)
    ensures Allocated(v, extents) < 0x1_0000_0000
  {
  }
}
