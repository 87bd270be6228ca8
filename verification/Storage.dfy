/** What the file systems see of the driver: sectors by position, and plain byte copies. */
module Storage {
  import opened Prim
  import opened Arith
  import opened AtaDriver

  /** The byte at a position of the disk; 0 past its end. */
  function Cell(disk: seq<u8>, i: int): u8 { if 0 <= i < |disk| then disk[i] else 0 }

  /** Reads `count` sectors through the driver. */
  method Load(dev: Driver, dst: array<u8>, at: nat, sector: u32, count: u32, store: bool)
    requires dev.Valid() && Spans(dev.D().disk, sector, count, dev.Wide())
    requires dst != dev.cachedata && dst != dev.buff && at + 512 * count <= dst.Length
    modifies dev`ctl, dev`cacheticks, dev.cachedata, dev.cacheaddr, dev.cachetick, dev.buff, dst
    ensures dev.Valid() && dev.D().disk == old(dev.D().disk)
    ensures forall k :: 0 <= k < dst.Length ==>
              dst[k] == if at <= k < at + 512 * count then Cell(old(dev.D().disk), 512 * sector + (k - at)) else old(dst[k])
  {
    ghost var disk, before := dev.D().disk, dst[..];
    dev.ReadBlocks(dst, at, sector, count, store);
    ElementsOfSplice(dst[..], before, at, Sectors512(disk, sector, count));
  }

  /** `next` is `was` with n bytes of `data` from `from` on at `at`. */
  ghost predicate Copied(next: seq<u8>, was: seq<u8>, data: seq<u8>, from: nat, at: nat, n: nat) {
    |next| == |was| && from + n <= |data| &&
    forall k :: 0 <= k < |next| ==> next[k] == if at <= k < at + n then data[from + (k - at)] else was[k]
  }

  /** A forward copy between two buffers. */
  method Copy(src: array<u8>, from: nat, dst: array<u8>, at: nat, n: nat)
    requires src != dst && from + n <= src.Length && at + n <= dst.Length
    modifies dst
    ensures Copied(dst[..], old(dst[..]), old(src[..]), from, at, n)
  {
    var i := 0;
    while i < n
      invariant i <= n
      invariant forall k :: 0 <= k < dst.Length ==> dst[k] == if at <= k < at + i then src[from + (k - at)] else old(dst[k])
    {
      dst[at + i] := src[from + i];
      i := i + 1;
    }
  }

  /** `dst` is `was` with `n` bytes of a file, from position `from` on, put at `at`. */
  ghost predicate Filled(dst: seq<u8>, was: seq<u8>, at: nat, n: nat, file: nat -> u8, from: nat) {
    |dst| == |was| && forall k :: 0 <= k < |dst| ==> dst[k] == if at <= k < at + n then file(from + (k - at)) else was[k]
  }

  lemma FilledMore(next: seq<u8>, dst: seq<u8>, was: seq<u8>, at: nat, m: nat, n: nat, file: nat -> u8, from: nat)
    requires Filled(dst, was, at, m, file, from) && Filled(next, dst, at + m, n, file, from + m)
    ensures Filled(next, was, at, m + n, file, from)
  {
  }

  lemma NothingFilled(was: seq<u8>, at: nat, file: nat -> u8, from: nat)
    ensures Filled(was, was, at, 0, file, from)
  {
  }

  /** Bytes of one file are bytes of another exactly where the two agree. */
  lemma FilledAgree(dst: seq<u8>, was: seq<u8>, at: nat, n: nat, file: nat -> u8, other: nat -> u8, from: nat)
    requires Filled(dst, was, at, n, file, from) && at + n <= |dst|
    ensures Filled(dst, was, at, n, other, from) <==> forall k :: from <= k < from + n ==> file(k) == other(k)
  {
    if Filled(dst, was, at, n, other, from) {
      forall k | from <= k < from + n
        ensures file(k) == other(k)
      {
        assert dst[at + (k - from)] == file(k) == other(k);
      }
    }
  }

  // ---------------------------------------------------------------- open files

  datatype Whence = Cur | Set | End | OtherWhence

  /** The bytes that `nmemb` items of `size` bytes make, as a 32-bit product. */
  function Wanted(size: u32, nmemb: u32): u32 { size * nmemb % 0x1_0000_0000 }

  function Items(n: u32, size: u32): u32
    requires size > 0
  {
    n / size
  }

  /** As long as the product fits 32 bits the bytes wanted are those of the items, and the items counted are
      the whole ones among the bytes that there are. */
  lemma WholeItems(size: u32, nmemb: u32, left: u32)
    requires size > 0 && size * nmemb < 0x1_0000_0000
    ensures Wanted(size, nmemb) == size * nmemb
    ensures size * nmemb <= left ==> Items(size * nmemb, size) == nmemb
    ensures Items(left, size) * size <= left < (Items(left, size) + 1) * size
  {
    ProductOrder(size, 0, nmemb);
    Quotient(nmemb, 0, size);
    Divide(left, size);
  }
}
