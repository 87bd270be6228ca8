/** The loader's memory copy: words where the pointers allow it, and overlapping areas. */
module Memory {
  import opened Prim
  import opened Arith

  /** Byte by byte, upwards. */
  function Forward(m: seq<u8>, dest: nat, src: nat, n: nat): (r: seq<u8>)
    requires dest + n <= |m| && src + n <= |m|
    ensures |r| == |m|
    decreases n
  {
    if n == 0 then m else Forward(m[dest := m[src]], dest + 1, src + 1, n - 1)
  }

  /** What a copy should leave: the original source bytes at the destination, all else as it was. */
  function Moved(m: seq<u8>, dest: nat, src: nat, n: nat): seq<u8>
    requires dest + n <= |m| && src + n <= |m|
  {
    Splice(m, dest, m[src..src + n])
  }

  lemma {:induction false} ForwardJoins(m: seq<u8>, dest: nat, src: nat, a: nat, b: nat)
    requires dest + a + b <= |m| && src + a + b <= |m|
    ensures Forward(Forward(m, dest, src, a), dest + a, src + a, b) == Forward(m, dest, src, a + b)
    decreases a
  {
    if a > 0 { ForwardJoins(m[dest := m[src]], dest + 1, src + 1, a - 1, b); }
  }

  lemma OneByteMore(m: seq<u8>, dest: nat, src: nat, a: nat)
    requires dest + a < |m| && src + a < |m|
    ensures var f := Forward(m, dest, src, a);
            f[dest + a := f[src + a]] == Forward(m, dest, src, a + 1)
  {
    ForwardJoins(m, dest, src, a, 1);
    var f := Forward(m, dest, src, a);
    assert Forward(f, dest + a, src + a, 1) == f[dest + a := f[src + a]];
  }

  /** A word read and then written. */
  function WordMoved(m: seq<u8>, dest: nat, src: nat): (r: seq<u8>)
    requires dest + 4 <= |m| && src + 4 <= |m|
    ensures |r| == |m|
  {
    m[dest := m[src]][dest + 1 := m[src + 1]][dest + 2 := m[src + 2]][dest + 3 := m[src + 3]]
  }

  /** Between pointers of equal alignment a word copy is four byte copies. */
  lemma WordIsFourBytes(m: seq<u8>, dest: nat, src: nat)
    requires dest + 4 <= |m| && src + 4 <= |m| && dest % 4 == src % 4
    ensures WordMoved(m, dest, src) == Forward(m, dest, src, 4)
  {
    var m1 := m[dest := m[src]];
    var m2 := m1[dest + 1 := m1[src + 1]];
    var m3 := m2[dest + 2 := m2[src + 2]];
    var m4 := m3[dest + 3 := m3[src + 3]];
    assert Forward(m, dest, src, 4) == Forward(m1, dest + 1, src + 1, 3) == Forward(m2, dest + 2, src + 2, 2)
           == Forward(m3, dest + 3, src + 3, 1) == m4;
    Apart(dest, src);
    assert m1[src + 1] == m[src + 1];
    assert m2[src + 2] == m[src + 2];
    assert m3[src + 3] == m[src + 3];
  }

  lemma NextWord(p: nat)
    ensures (p + 4) % 4 == p % 4
  {
    Divide(p, 4);
    Quotient(p / 4 + 1, p % 4, 4);
  }

  lemma Residue(p: nat, i: nat)
    requires i < 4
    ensures (p + i) % 4 == if p % 4 + i < 4 then p % 4 + i else p % 4 + i - 4
  {
    Divide(p, 4);
    if p % 4 + i < 4 { Quotient(p / 4, p % 4 + i, 4); } else { Quotient(p / 4 + 1, p % 4 + i - 4, 4); }
  }

  lemma Apart(dest: nat, src: nat)
    requires dest % 4 == src % 4
    ensures dest == src || dest >= src + 4 || src >= dest + 4
  {
  }

  // ---------------------------------------------------------------- overlap

  lemma {:induction false} ForwardAt(m: seq<u8>, dest: nat, src: nat, n: nat, k: nat)
    requires dest + n <= |m| && src + n <= |m| && k < |m|
    ensures !(dest <= k < dest + n) ==> Forward(m, dest, src, n)[k] == m[k]
    ensures dest <= k < dest + n && (dest <= src || src + n <= dest) ==> Forward(m, dest, src, n)[k] == m[src + (k - dest)]
    decreases n
  {
    if n > 0 { ForwardAt(m[dest := m[src]], dest + 1, src + 1, n - 1, k); }
  }

  lemma ForwardMoves(m: seq<u8>, dest: nat, src: nat, n: nat)
    requires dest + n <= |m| && src + n <= |m| && (dest <= src || src + n <= dest)
    ensures Forward(m, dest, src, n) == Moved(m, dest, src, n)
  {
    forall k | 0 <= k < |m|
      ensures Forward(m, dest, src, n)[k] == Moved(m, dest, src, n)[k]
    {
      ForwardAt(m, dest, src, n, k);
    }
  }

  /** A memory with a single byte set, at `at`. */
  function OneSet(size: nat, at: nat): seq<u8> { seq<u8>(size, i => if i == at then 1 else 0) }

  /** Copying upwards from behind: the first byte comes round again. */
  lemma {:induction false} Repeats(m: seq<u8>, dest: nat, src: nat, n: nat)
    requires src < dest < src + n && dest + n <= |m|
    ensures Forward(m, dest, src, n)[dest + (dest - src)] == m[src]
  {
    var d := dest - src;
    ForwardJoins(m, dest, src, 1, n - 1);
    ForwardJoins(m, dest, src, d, n - d);
    var f := Forward(m, dest, src, d);
    ForwardAt(m, dest, src, d, dest);
    assert f[src + d] == m[src];
    ForwardAt(f[dest + d := f[dest]], dest + d + 1, dest + 1, n - d - 1, dest + d);
  }

  /** The upward copy is right on every memory exactly when the destination is not above the
      source and inside it. */
  lemma RightExactly(size: nat, dest: nat, src: nat, n: nat)
    requires dest + n <= size && src + n <= size
    ensures (forall m: seq<u8> :: |m| == size ==> Forward(m, dest, src, n) == Moved(m, dest, src, n))
            <==> dest <= src || src + n <= dest
  {
    if dest <= src || src + n <= dest {
      forall m: seq<u8> | |m| == size
        ensures Forward(m, dest, src, n) == Moved(m, dest, src, n)
      {
        ForwardMoves(m, dest, src, n);
      }
    } else {
      var m := OneSet(size, src);
      Repeats(m, dest, src, n);
      assert Moved(m, dest, src, n)[dest + (dest - src)] == m[dest];
    }
  }

  // ---------------------------------------------------------------- the copy

  /** Bytes up to the next word boundary. */
  function ToBoundary(p: nat): nat { (4 - p % 4) % 4 }

  /** Whether the count survives the way to the boundary. */
  predicate Safe(dest: nat, src: nat, n: nat) { n == 0 || src % 4 != dest % 4 || n >= ToBoundary(src) }

  lemma Boundary(p: nat, i: nat)
    requires i <= ToBoundary(p)
    ensures (p + i) % 4 == 0 <==> i == ToBoundary(p)
  {
    Residue(p, i);
  }

  lemma SameBoundary(dest: nat, src: nat, i: nat)
    requires dest % 4 == src % 4 && i == ToBoundary(src)
    ensures (dest + i) % 4 == 0 == (src + i) % 4
  {
    Residue(dest, i);
    Residue(src, i);
  }

  /** Copies `n` bytes.  Returns how many more bytes the copy goes on to ask for: none, or, when the
      count runs out before the boundary and is decremented once more, 2^32 - 1. */
  method MemCopy(mem: array<u8>, dest: u32, src: u32, n: u32) returns (more: u32)
    requires dest + n <= mem.Length && src + n <= mem.Length
    modifies mem
    ensures mem[..] == Forward(old(mem[..]), dest, src, n)
    ensures more == (if Safe(dest, src, n) then 0 else 0xffff_ffff)
    ensures dest <= src || src + n <= dest ==> mem[..] == Moved(old(mem[..]), dest, src, n)
  {
    hide Forward, Moved, ToBoundary;
    ghost var was := mem[..];
    NothingForward(was, dest, src);
    more := 0;
    if src % 4 != dest % 4 {
      CopyBytes(mem, dest, src, n, 0, was);
    } else if n > 0 {
      var i := CopyToBoundary(mem, dest, src, n);
      if (src + i) % 4 != 0 {
        more := 0xffff_ffff;
      } else {
        i := CopyWords(mem, dest, src, i, n, was);
        CopyBytes(mem, dest, src, n, i, was);
      }
    }
    if dest <= src || src + n <= dest { ForwardMoves(was, dest, src, n); }
  }

  /** Bytes up to the boundary, or all there are. */
  method CopyToBoundary(mem: array<u8>, dest: u32, src: u32, n: u32) returns (i: nat)
    requires dest + n <= mem.Length && src + n <= mem.Length && src % 4 == dest % 4
    modifies mem
    ensures i == if n < ToBoundary(src) then n else ToBoundary(src)
    ensures mem[..] == Forward(old(mem[..]), dest, src, i)
    ensures (src + i) % 4 == 0 <==> n >= ToBoundary(src)
    ensures n >= ToBoundary(src) ==> (dest + i) % 4 == 0
  {
    hide Forward, ToBoundary;
    ghost var was := mem[..];
    i := 0;
    NothingForward(was, dest, src);
    Boundary(src, i);
    while (src + i) % 4 != 0 && i < n
      decreases n - i
      invariant i <= n && i <= ToBoundary(src) && ((src + i) % 4 == 0 <==> i == ToBoundary(src))
      invariant mem[..] == Forward(was, dest, src, i)
    {
      OneByteMore(was, dest, src, i);
      mem[dest + i] := mem[src + i];
      i := i + 1;
      Boundary(src, i);
    }
    if i == ToBoundary(src) { SameBoundary(dest, src, i); }
  }

  lemma NothingForward(m: seq<u8>, dest: nat, src: nat)
    requires dest <= |m| && src <= |m|
    ensures Forward(m, dest, src, 0) == m
  {
  }

  /** The words that fit, from offset `from` on. */
  method CopyWords(mem: array<u8>, dest: u32, src: u32, from: nat, n: nat, ghost was: seq<u8>) returns (i: nat)
    requires from <= n && dest + n <= mem.Length && src + n <= mem.Length && |was| == mem.Length
    requires (dest + from) % 4 == (src + from) % 4 && mem[..] == Forward(was, dest, src, from)
    modifies mem
    ensures from <= i <= n && i == from + (n - from) / 4 * 4 && mem[..] == Forward(was, dest, src, i)
  {
    hide Forward, Splice;
    var n4: nat := (n - from) / 4;
    i := from;
    ghost var end := i + 4 * n4;
    while n4 > 0
      invariant from <= i && i + 4 * n4 == end <= n && (dest + i) % 4 == (src + i) % 4
      invariant mem[..] == Forward(was, dest, src, i)
    {
      CopyWord(mem, dest + i, src + i);
      ForwardJoins(was, dest, src, i, 4);
      NextWord(dest + i);
      NextWord(src + i);
      n4, i := n4 - 1, i + 4;
    }
  }

  method CopyWord(mem: array<u8>, dest: nat, src: nat)
    requires dest + 4 <= mem.Length && src + 4 <= mem.Length && dest % 4 == src % 4
    modifies mem
    ensures mem[..] == Forward(old(mem[..]), dest, src, 4)
  {
    ghost var was := mem[..];
    WordIsFourBytes(was, dest, src);
    var b0, b1, b2, b3 := mem[src], mem[src + 1], mem[src + 2], mem[src + 3];
    mem[dest] := b0;
    mem[dest + 1] := b1;
    mem[dest + 2] := b2;
    mem[dest + 3] := b3;
    assert mem[..] == WordMoved(was, dest, src);
  }

  /** The remaining bytes, from offset `from` on. */
  method CopyBytes(mem: array<u8>, dest: u32, src: u32, n: nat, from: nat, ghost was: seq<u8>)
    requires from <= n && dest + n <= mem.Length && src + n <= mem.Length && |was| == mem.Length
    requires mem[..] == Forward(was, dest, src, from)
    modifies mem
    ensures mem[..] == Forward(was, dest, src, n)
  {
    var i := from;
    while i < n
      invariant from <= i <= n && mem[..] == Forward(was, dest, src, i)
    {
      OneByteMore(was, dest, src, i);
      mem[dest + i] := mem[src + i];
      i := i + 1;
    }
  }
}
