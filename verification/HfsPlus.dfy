/** The layout of a file on an HFS+ volume: its extents laid end to end. */
module HfsPlus {
  import opened Prim
  import opened Arith
  import opened Storage
  import opened AtaDriver
  import C = AtaCache

  datatype Extent = Extent(start: u32, count: u32)

  /** A volume starts at sector `part`; a cluster has `cluster` bytes. */
  datatype Volume = Volume(part: u32, cluster: u32)

  predicate Mountable(v: Volume) { v.cluster > 0 && v.cluster % 512 == 0 }

  function PerCluster(v: Volume): nat { v.cluster / 512 }

  const EXTENTS := 8

  // ---------------------------------------------------------------- the layout

  /** The clusters of an extent. */
  function Run(e: Extent): (r: seq<nat>)
    ensures |r| == e.count
  {
    seq(e.count, i requires 0 <= i => e.start + i)
  }

  /** The clusters of a file, in order. */
  function Clusters(extents: seq<Extent>): seq<nat> {
    if extents == [] then [] else Run(extents[0]) + Clusters(extents[1..])
  }

  function Allocated(v: Volume, extents: seq<Extent>): nat { |Clusters(extents)| * v.cluster }

  /** The position on the disk of byte k of the file. */
  function BytePos(v: Volume, extents: seq<Extent>, k: nat): int
    requires Mountable(v)
  {
    if k / v.cluster < |Clusters(extents)| then ClusterPos(v, Clusters(extents)[k / v.cluster]) + k % v.cluster else -1
  }

  function ClusterPos(v: Volume, c: nat): nat { 512 * (c * PerCluster(v) + v.part) }

  function FileByte(disk: seq<u8>, v: Volume, extents: seq<Extent>, k: nat): u8
    requires Mountable(v)
  {
    Cell(disk, BytePos(v, extents, k))
  }

  function Content(disk: seq<u8>, v: Volume, extents: seq<Extent>): nat -> u8
    requires Mountable(v)
  {
    k => FileByte(disk, v, extents, k)
  }

  /** Every allocated byte is on the disk, and the allocation is below 4 GiB. */
  ghost predicate OnDisk(disk: seq<u8>, v: Volume, wide: bool, extents: seq<Extent>)
    requires Mountable(v)
  {
    && Allocated(v, extents) < 0x1_0000_0000
    && forall k :: 0 <= k < Allocated(v, extents) ==>
         BytePos(v, extents, k) >= 0 && C.Readable(disk, BytePos(v, extents, k) / 512, wide)
  }

  /** The clusters of the first i extents. */
  function Before(extents: seq<Extent>, i: nat): nat
    requires i <= |extents|
  {
    |Clusters(extents[..i])|
  }

  lemma {:induction false} ClustersJoin(a: seq<Extent>, b: seq<Extent>)
    ensures Clusters(a + b) == Clusters(a) + Clusters(b)
  {
    hide Run;
    if a == [] {
      assert a + b == b;
    } else {
      ClustersJoin(a[1..], b);
      assert (a + b)[1..] == a[1..] + b && (a + b)[0] == a[0];
      Associative(Run(a[0]), Clusters(a[1..]), Clusters(b));
    }
  }

  lemma Associative<T>(a: seq<T>, b: seq<T>, c: seq<T>)
    ensures a + (b + c) == (a + b) + c
  {
  }

  lemma BeforeNext(extents: seq<Extent>, i: nat)
    requires i < |extents|
    ensures Before(extents, i + 1) == Before(extents, i) + extents[i].count
  {
    ClustersJoin(extents[..i], [extents[i]]);
    assert extents[..i + 1] == extents[..i] + [extents[i]];
  }

  /** Cluster m of extent i. */
  lemma ClusterAt(extents: seq<Extent>, i: nat, m: nat)
    requires i < |extents| && m < extents[i].count
    ensures Before(extents, i) + m < |Clusters(extents)|
    ensures Clusters(extents)[Before(extents, i) + m] == extents[i].start + m
  {
    ClustersJoin(extents[..i], extents[i..]);
    assert extents == extents[..i] + extents[i..];
  }

  // ---------------------------------------------------------------- stretches

  /** From file position p on, `rem` bytes lie in one piece on the disk, the first of them at
      `ofs` in sector `block`, and the piece ends with a sector. */
  ghost predicate Piece(v: Volume, extents: seq<Extent>, p: nat, block: nat, ofs: nat, rem: nat)
    requires Mountable(v)
  {
    && ofs < 512 && rem > 0 && (rem + ofs) % 512 == 0 && p + rem <= Allocated(v, extents)
    && forall k :: p <= k < p + rem ==> BytePos(v, extents, k) == 512 * block + ofs + (k - p)
  }

  lemma QuotientAbove(x: nat, a: nat, d: nat) returns (q: nat)
    requires d > 0 && x < a * d
    ensures q == x / d < a
  {
    q := x / d;
    assert q * d <= x;
    ProductOrder(q, a, d);
  }

  /** x bytes past the start of a cluster. */
  lemma Beyond(c: nat, x: nat, d: nat)
    requires d > 0
    ensures (c * d + x) / d == c + x / d && (c * d + x) % d == x % d
  {
    var q, r := x / d, x % d;
    assert x == q * d + r;
    assert (c + q) * d == c * d + q * d;
    Quotient(c + q, r, d);
  }

  lemma ClusterSectors(v: Volume, c: nat, m: nat)
    requires Mountable(v)
    ensures ClusterPos(v, c + m) == ClusterPos(v, c) + m * v.cluster
  {
    var pc := PerCluster(v);
    assert v.cluster == 512 * pc;
    assert (c + m) * pc == c * pc + m * pc;
    assert m * (512 * pc) == 512 * (m * pc);
  }

  /** A position x bytes past the start of cluster m of extent i, still in the extent. */
  lemma InCluster(v: Volume, extents: seq<Extent>, i: nat, m: nat, q: nat, x: nat)
    requires Mountable(v) && i < |extents| && m + q < extents[i].count && q == x / v.cluster
    ensures 0 <= (Before(extents, i) + m) * v.cluster + x < Allocated(v, extents)
    ensures BytePos(v, extents, (Before(extents, i) + m) * v.cluster + x) == ClusterPos(v, extents[i].start + m) + x
  {
    hide Clusters, ClusterPos, BytePos;
    var c, d := Before(extents, i) + m, v.cluster;
    ClusterAt(extents, i, m + q);
    InProduct(c, q, d, x, |Clusters(extents)|);
    Beyond(c, x, d);
    BytePosAt(v, extents, c * d + x);
    ClusterSectors(v, extents[i].start + m, q);
    Divide(x, d);
  }

  /** Byte x of extent i lies x bytes behind the start of the extent's first cluster, which is counted in
      whole clusters from the start of the volume. */
  lemma ExtentByte(v: Volume, extents: seq<Extent>, i: nat, x: nat)
    requires Mountable(v) && i < |extents| && x < extents[i].count * v.cluster
    ensures 0 <= Before(extents, i) * v.cluster + x < Allocated(v, extents)
    ensures BytePos(v, extents, Before(extents, i) * v.cluster + x) ==
            512 * v.part + extents[i].start * v.cluster + x
  {
    hide BytePos, Allocated, Before;
    var q := QuotientAbove(x, extents[i].count, v.cluster);
    InCluster(v, extents, i, 0, q, x);
    ClusterSectors(v, 0, extents[i].start);
  }

  lemma BytePosAt(v: Volume, extents: seq<Extent>, k: nat)
    requires Mountable(v) && k / v.cluster < |Clusters(extents)|
    ensures BytePos(v, extents, k) == ClusterPos(v, Clusters(extents)[k / v.cluster]) + k % v.cluster
  {
  }

  lemma InProduct(c: nat, q: nat, d: nat, x: nat, n: nat)
    requires d > 0 && q == x / d && c + q < n
    ensures 0 <= c * d + x < n * d
  {
    Divide(x, d);
    ProductOrder(n, c + q + 1, d);
    assert (c + q + 1) * d == c * d + q * d + d;
  }

  lemma WholeSectors(a: nat, d: nat, r: nat)
    requires d % 512 == 0 && r < d && a > 0
    ensures a * d - r > 0 && (a * d - r + r % 512) % 512 == 0
  {
    var k := d / 512;
    assert a * d == 512 * (a * k);
    ProductOrder(a, 1, d);
    assert a * d - r + r % 512 == 512 * (a * k - r / 512);
  }

  /** The cluster of a file that holds position p, and where in it p lies. */
  function ClusterOf(v: Volume, p: nat): (c: nat)
    requires Mountable(v)
  {
    p / v.cluster
  }

  function InsideCluster(v: Volume, p: nat): (r: nat)
    requires Mountable(v)
    ensures r < v.cluster
  {
    p % v.cluster
  }

  /** The bytes an extent has from r bytes past the start of its cluster m on. */
  function RestLength(v: Volume, e: Extent, m: nat, r: nat): int { (e.count - m) * v.cluster - r }

  function RestSector(v: Volume, e: Extent, m: nat, r: nat): nat { (e.start + m) * PerCluster(v) + v.part + r / 512 }

  /** The rest of extent i from position p on is one piece. */
  lemma RestOfExtent(v: Volume, extents: seq<Extent>, p: nat, i: nat, m: nat)
    requires Mountable(v) && i < |extents| && m < extents[i].count && ClusterOf(v, p) == Before(extents, i) + m
    ensures var r := InsideCluster(v, p);
            && RestLength(v, extents[i], m, r) > 0
            && Piece(v, extents, p, RestSector(v, extents[i], m, r), r % 512, RestLength(v, extents[i], m, r))
  {
    hide BytePos, Allocated, Before;
    var d, r, c := v.cluster, p % v.cluster, p / v.cluster;
    var left := (extents[i].count - m) * d;
    Divide(p, d);
    WholeSectors(extents[i].count - m, d, r);
    var last := QuotientAbove(left - 1, extents[i].count - m, d);
    InCluster(v, extents, i, m, last, left - 1);
    forall k | p <= k < p + (left - r)
      ensures BytePos(v, extents, k) == ClusterPos(v, extents[i].start + m) + r + (k - p)
    {
      var x := r + (k - p);
      var q := QuotientAbove(x, extents[i].count - m, d);
      InCluster(v, extents, i, m, q, x);
    }
  }

  /** What is left of a piece once its first sector is read. */
  lemma NextPiece(v: Volume, extents: seq<Extent>, p: nat, block: nat, ofs: nat, rem: nat)
    requires Mountable(v) && Piece(v, extents, p, block, ofs, rem)
    ensures ofs < 512 && 512 - ofs <= rem
    ensures 512 - ofs < rem ==> Piece(v, extents, p + (512 - ofs), block + 1, 0, rem - (512 - ofs))
  {
    hide BytePos, Allocated;
  }

  /** The first sector of a piece is on the disk. */
  lemma PieceOnDisk(disk: seq<u8>, v: Volume, wide: bool, extents: seq<Extent>, p: nat, block: nat, ofs: nat, rem: nat)
    requires Mountable(v) && OnDisk(disk, v, wide, extents) && Piece(v, extents, p, block, ofs, rem)
    ensures Spans(disk, block, 1, wide) && block < 0x1000_0000
  {
    hide BytePos, Allocated;
    assert BytePos(v, extents, p) == 512 * block + ofs;
  }

  /** A copy out of the first sector of a piece. */
  lemma PieceFills(next: seq<u8>, was: seq<u8>, disk: seq<u8>, v: Volume, extents: seq<Extent>,
                   p: nat, block: nat, ofs: nat, rem: nat, at: nat, n: nat)
    requires Mountable(v) && Piece(v, extents, p, block, ofs, rem) && n <= rem && |next| == |was|
    requires forall k :: 0 <= k < |next| ==>
               next[k] == if at <= k < at + n then Cell(disk, 512 * block + ofs + (k - at)) else was[k]
    ensures Filled(next, was, at, n, Content(disk, v, extents), p)
  {
    hide BytePos, Allocated, Cell;
    forall k | at <= k < at + n && k < |next|
      ensures Content(disk, v, extents)(p + (k - at)) == next[k]
    {
      assert BytePos(v, extents, p + (k - at)) == 512 * block + ofs + (k - at);
    }
  }

  // ---------------------------------------------------------------- the end of the file

  /** How much the reader takes of a request: it adds the position to the length where it should
      subtract it. */
  function Clamped(position: u32, length: u32, want: u32): u32 {
    var limit := (length + position) % 0x1_0000_0000;
    if want > limit then limit else want
  }

  /** The reader stops at the end of the file exactly when the request fits, or starts at 0. */
  lemma ClampExactly(position: u32, length: u32, want: u32)
    requires position <= length < 0x8000_0000
    ensures Clamped(position, length, want) == (if want > length - position then length - position else want)
            <==> want <= length - position || position == 0
  {
  }
}
