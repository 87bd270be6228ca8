/** The HD66753 LCD controller: a byte latch in front of an index register and a data register,
    an address counter over a graphics RAM with gaps, and the frame rendered from it. */
module Lcd {
  import opened Prim
  import opened Arith

  const CGRAM_WIDTH := 168
  const ROW_WORDS := 21       // words shown of a row
  const ROW_STRIDE := 32      // words a row takes in the address space
  const CGRAM_LEN := 0x1080   // 132 rows

  /** usize is 64 bits wide. */
  const USIZE := 0x1_0000_0000_0000_0000

  datatype Regs = Regs(cms: bool, sgs: bool, nl: u8, id: bool, am: u8, lg: u8, rt: u8, rev: bool, wm: u16)

  const RESET := Regs(false, false, 31, false, 0, 0, 0, false, 0)

  /** The registers that only store their fields: neither the graphics RAM nor the frame depends
      on them. */
  datatype Wave = Wave(nw: u8, eor: bool, bc: bool)
  datatype Power = Power(stb: bool, slp: bool, ap: u8, dc: u8, ps: u8, bt: u8, bs: u8)
  datatype Contrast = Contrast(vr: u8, ct: u8)
  datatype Display = Display(spt: bool, gsh: u8, gsl: u8, on: bool)
  datatype Cursor = Cursor(on: bool, cm: u8)
  datatype Range = Range(start: u8, end: u8)
  datatype Stored = Stored(
    wave: Wave, power: Power, contrast: Contrast, display: Display, cursor: Cursor,
    columns: Range, rows: Range, screen1: Range, screen2: Range)

  const ZERO := Range(0, 0)
  const NOTHING_STORED := Stored(Wave(0, false, false), Power(false, false, 0, 0, 0, 0, 0), Contrast(0, 0),
                                 Display(false, 0, 0, false), Cursor(false, 0), ZERO, ZERO, ZERO, ZERO)

  datatype Severity = Error | Warn | Info
  datatype Res = Ok | StubWrite | Violation(severity: Severity) | Fatal | Unexpected

  predicate Halts(r: Res) { r == Fatal || r == Unexpected || r == Violation(Error) }

  // ---------------------------------------------------------------- words

  predicate Odd(x: nat) { x % 2 == 1 }

  function TwoTo(n: nat): (r: nat)
    ensures r >= 1
  {
    if n == 0 then 1 else 2 * TwoTo(n - 1)
  }

  /** A bitwise operation on the low n bits. */
  function Bitwise(op: (bool, bool) -> bool, a: nat, b: nat, n: nat): (r: nat)
    ensures r < TwoTo(n)
  {
    if n == 0 then 0
    else 2 * Bitwise(op, a / 2, b / 2, n - 1) + (if op(Odd(a), Odd(b)) then 1 else 0)
  }

  const AND := (a: bool, b: bool) => a && b
  const OR := (a: bool, b: bool) => a || b
  const XOR := (a: bool, b: bool) => a != b
  const MASKED := (a: bool, b: bool) => a && !b

  function Word(op: (bool, bool) -> bool, a: u16, b: u16): u16 {
    assert TwoTo(16) == 0x1_0000 by { TwoTo16(); }
    Bitwise(op, a, b, 16)
  }

  lemma TwoTo16()
    ensures TwoTo(16) == 0x1_0000
  {
    assert TwoTo(4) == 16;
    assert TwoTo(8) == 256;
    assert TwoTo(12) == 4096;
  }

  function RotateLeft(v: u16, n: nat): u16
    decreases n
  {
    if n == 0 then v else RotateLeft(v * 2 % 0x1_0000 + v / 0x8000, n - 1)
  }

  /** What a data write leaves in a cell: rotated, combined with the old word, masked. */
  function Cell(r: Regs, was: u16, v: u16): u16 {
    var rotated := RotateLeft(v, 2 * r.rt);
    var combined :=
      if r.lg == 0 then rotated
      else if r.lg == 1 then Word(OR, was, rotated)
      else if r.lg == 2 then Word(AND, was, rotated)
      else Word(XOR, was, rotated);
    Word(OR, Word(AND, was, r.wm), Word(MASKED, combined, r.wm))
  }

  predicate BitOf(v: nat, k: nat) { if k == 0 then Odd(v) else BitOf(v / 2, k - 1) }

  lemma {:induction false} BitwiseBit(op: (bool, bool) -> bool, a: nat, b: nat, n: nat, k: nat)
    requires k < n
    ensures BitOf(Bitwise(op, a, b, n), k) == op(BitOf(a, k), BitOf(b, k))
  {
    if k > 0 { BitwiseBit(op, a / 2, b / 2, n - 1, k - 1); }
  }

  lemma {:induction false} SameBits(a: nat, b: nat, n: nat)
    requires a < TwoTo(n) && b < TwoTo(n) && forall k :: 0 <= k < n ==> BitOf(a, k) == BitOf(b, k)
    ensures a == b
  {
    if n > 0 {
      forall k | 0 <= k < n - 1
        ensures BitOf(a / 2, k) == BitOf(b / 2, k)
      {
        assert BitOf(a, k + 1) == BitOf(b, k + 1);
      }
      SameBits(a / 2, b / 2, n - 1);
      assert BitOf(a, 0) == BitOf(b, 0);
    }
  }

  lemma HalfAndBit(v: nat, b: nat)
    requires b < 2
    ensures (2 * v + b) / 2 == v && Odd(2 * v + b) == (b == 1)
  {
  }

  lemma {:induction false} HighBits(v: nat, top: nat, n: nat, k: nat)
    requires top < 2 && v < TwoTo(n)
    ensures BitOf(top * TwoTo(n) + v, k) == if k < n then BitOf(v, k) else if k == n then top == 1 else false
    decreases n
  {
    if n == 0 {
      if k > 0 { NoBits(k - 1); }
    } else {
      var m := top * TwoTo(n - 1) + v / 2;
      assert top * TwoTo(n) + v == 2 * m + v % 2;
      HalfAndBit(m, v % 2);
      if k > 0 { HighBits(v / 2, top, n - 1, k - 1); }
    }
  }

  /** One turn to the left moves every bit one up, and the top one to the bottom. */
  lemma TurnBit(v: u16, k: nat)
    requires k < 16
    ensures BitOf(v * 2 % 0x1_0000 + v / 0x8000, k) == BitOf(v, if k == 0 then 15 else k - 1)
  {
    var top, low := v / 0x8000, v % 0x8000;
    assert TwoTo(15) == 0x8000 by { TwoTo16(); }
    assert v == top * 0x8000 + low && v * 2 % 0x1_0000 == 2 * low;
    HighBits(low, top, 15, if k == 0 then 15 else k - 1);
    HalfAndBit(low, top);
  }

  /** The bit that n turns bring to place k: the one n places below it, around the corner. */
  function TurnedFrom(k: nat, n: nat): (j: nat)
    ensures j < 16
  {
    (k + 15 * n) % 16
  }

  lemma {:induction false} RotatedBit(v: u16, n: nat, k: nat)
    requires k < 16
    ensures BitOf(RotateLeft(v, n), k) == BitOf(v, TurnedFrom(k, n))
    decreases n
  {
    hide BitOf, TurnedFrom;
    if n > 0 {
      RotatedBit(v * 2 % 0x1_0000 + v / 0x8000, n - 1, k);
      TurnBit(v, TurnedFrom(k, n - 1));
      OnePlaceDown(k, n);
    } else {
      NoTurn(k);
    }
  }

  lemma NoTurn(k: nat)
    requires k < 16
    ensures TurnedFrom(k, 0) == k
  {
  }

  lemma OnePlaceDown(k: nat, n: nat)
    requires n > 0
    ensures var j := TurnedFrom(k, n - 1);
            TurnedFrom(k, n) == if j == 0 then 15 else j - 1
  {
    var p := k + 15 * (n - 1);
    Divide(p, 16);
    var q, j := p / 16, p % 16;
    if j == 0 { Quotient(q, 15, 16); } else { Quotient(q + 1, j - 1, 16); }
  }

  /** The write mask protects bits, bit by bit; the others get the value combined with the word rotated
      left by twice RT. */
  lemma CellBit(r: Regs, was: u16, v: u16, k: nat)
    requires k < 16
    ensures var rotated := BitOf(v, (k + 15 * (2 * r.rt)) % 16);
            BitOf(Cell(r, was, v), k) ==
              if BitOf(r.wm, k) then BitOf(was, k)
              else if r.lg == 0 then rotated
              else if r.lg == 1 then BitOf(was, k) || rotated
              else if r.lg == 2 then BitOf(was, k) && rotated
              else BitOf(was, k) != rotated
  {
    var rotated := RotateLeft(v, 2 * r.rt);
    RotatedBit(v, 2 * r.rt, k);
    BitwiseBit(OR, was, rotated, 16, k);
    BitwiseBit(AND, was, rotated, 16, k);
    BitwiseBit(XOR, was, rotated, 16, k);
    var combined := if r.lg == 0 then rotated else if r.lg == 1 then Word(OR, was, rotated)
                    else if r.lg == 2 then Word(AND, was, rotated) else Word(XOR, was, rotated);
    BitwiseBit(AND, was, r.wm, 16, k);
    BitwiseBit(MASKED, combined, r.wm, 16, k);
    BitwiseBit(OR, Word(AND, was, r.wm), Word(MASKED, combined, r.wm), 16, k);
  }

  lemma {:induction false} NoBits(k: nat)
    ensures !BitOf(0, k)
  {
    if k > 0 { NoBits(k - 1); }
  }

  /** With no rotation, no operation and no mask, a data write just writes. */
  lemma PlainCell(r: Regs, was: u16, v: u16)
    requires r.rt == 0 && r.lg == 0 && r.wm == 0
    ensures Cell(r, was, v) == v
  {
    TwoTo16();
    forall k | 0 <= k < 16
      ensures BitOf(Cell(r, was, v), k) == BitOf(v, k)
    {
      CellBit(r, was, v, k);
      NoBits(k);
    }
    SameBits(Cell(r, was, v), v, 16);
  }

  // ---------------------------------------------------------------- address counter

  /** One word on, forwards or backwards; a step into the gap behind the 21 words of a row goes
      to the next row or back to the last word of this one. */
  function NextAc(ac: nat, forward: bool): (r: nat)
    requires ac < CGRAM_LEN
    ensures r < CGRAM_LEN
  {
    SkipGap((if forward then ac + 1 else if ac == 0 then USIZE - 1 else ac - 1) % CGRAM_LEN, forward)
  }

  function SkipGap(moved: nat, forward: bool): (r: nat)
    requires moved < CGRAM_LEN
    ensures r < CGRAM_LEN
  {
    if moved % 32 > 0x14 then (moved / 32 * 32 + if forward then 0x20 else 0x14) % CGRAM_LEN else moved
  }

  predicate InRow(ac: nat) { ac < CGRAM_LEN && ac % ROW_STRIDE < ROW_WORDS }

  /** The place of a cell in reading order. */
  function Place(ac: nat): nat { ac / ROW_STRIDE * ROW_WORDS + ac % ROW_STRIDE }

  const PLACES := 2772  // 132 rows of 21 words

  /** Counting up walks the cells in reading order and back to the start. */
  lemma AcWalksOn(ac: nat)
    requires InRow(ac)
    ensures InRow(NextAc(ac, true)) && Place(NextAc(ac, true)) == (Place(ac) + 1) % PLACES
  {
    hide NextAc, Place, InRow;
    var row, col := InRowAt(ac);
    StepOn(row, col);
    PlaceAt(row, col);
    NextPlace(21 * row + col);
    if col < 20 { PlaceAt(row, col + 1); } else { PlaceAt(if row < 131 then row + 1 else 0, 0); }
  }

  lemma InRowAt(ac: nat) returns (row: nat, col: nat)
    requires InRow(ac)
    ensures row < 132 && col < ROW_WORDS && ac == 32 * row + col
  {
    row, col := ac / 32, ac % 32;
  }

  lemma PlaceBefore(p: nat)
    requires 0 < p < PLACES
    ensures (p + PLACES - 1) % PLACES == p - 1
  {
  }

  lemma NextPlace(p: nat)
    requires p < PLACES
    ensures (p + 1) % PLACES == if p + 1 < PLACES then p + 1 else 0
  {
  }

  /** Counting down walks them backwards, except that from cell 0 it lands in the middle of the
      RAM. */
  lemma AcWalksBack(ac: nat)
    requires InRow(ac)
    ensures InRow(NextAc(ac, false))
    ensures Place(NextAc(ac, false)) == (Place(ac) + PLACES - 1) % PLACES <==> ac != 0
  {
    hide NextAc, Place, InRow;
    if ac == 0 {
      BackFromZero();
    } else {
      var row, col := InRowAt(ac);
      StepBack(row, col);
      PlaceAt(row, col);
      PlaceBefore(21 * row + col);
      if col > 0 { PlaceAt(row, col - 1); } else { PlaceAt(row - 1, 20); }
    }
  }

  lemma BackFromZero()
    ensures NextAc(0, false) == 0xe74 && InRow(0xe74) && Place(0xe74) == 2435 && Place(0) == 0
  {
    assert (USIZE - 1) % CGRAM_LEN == 0xe7f;
  }

  lemma PlaceAt(row: nat, col: nat)
    requires row < 132 && col < ROW_WORDS
    ensures InRow(32 * row + col) && Place(32 * row + col) == 21 * row + col < PLACES
  {
    assert (32 * row + col) / 32 == row;
  }

  lemma RowCol(row: nat, col: nat)
    requires row < 132 && col < 32
    ensures 32 * row + col < CGRAM_LEN && (32 * row + col) / 32 == row && (32 * row + col) % 32 == col
    ensures (32 * row + col) % CGRAM_LEN == 32 * row + col
  {
  }

  lemma StepOn(row: nat, col: nat)
    requires row < 132 && col < ROW_WORDS
    ensures NextAc(32 * row + col, true) ==
            if col < 20 then 32 * row + col + 1 else if row < 131 then 32 * (row + 1) else 0
  {
    var ac := 32 * row + col;
    RowCol(row, col + 1);
    assert NextAc(ac, true) == SkipGap(ac + 1, true);
    if col == 20 {
      assert SkipGap(ac + 1, true) == (32 * row + 0x20) % CGRAM_LEN;
      if row < 131 { RowCol(row + 1, 0); }
    }
  }

  lemma StepBack(row: nat, col: nat)
    requires row < 132 && col < ROW_WORDS && (row > 0 || col > 0)
    ensures NextAc(32 * row + col, false) == if col > 0 then 32 * row + col - 1 else 32 * (row - 1) + 20
  {
    if col > 0 {
      RowCol(row, col - 1);
    } else {
      RowCol(row - 1, 31);
      RowCol(row - 1, 20);
    }
  }

  // ---------------------------------------------------------------- the device

  datatype Device = Device(latch: Option<u8>, ir: u16, ac: nat, cgram: seq<u16>, regs: Regs, stored: Stored)

  predicate Sound(d: Device) { |d.cgram| == CGRAM_LEN && d.ac < CGRAM_LEN }

  function Ends(v: u16): Range { Range(v % 256, v / 256) }

  /** A word written to a register that only stores it. */
  function Store(s: Stored, ir: u16, v: u16): Stored {
    if ir == 0x02 then s.(wave := Wave(v % 32, v / 32 % 2 == 1, v / 64 % 2 == 1))
    else if ir == 0x03 then
      s.(power := Power(v % 2 == 1, v / 2 % 2 == 1, v / 4 % 4, v / 16 % 4, v / 64 % 4, v / 256 % 4, v / 1024 % 8))
    else if ir == 0x04 then s.(contrast := Contrast(v / 256 % 8, v % 128))
    else if ir == 0x07 then s.(display := Display(v / 256 % 2 == 1, v / 16 % 4, v / 4 % 4, v % 2 == 1))
    else if ir == 0x08 then s.(cursor := Cursor(v / 4 % 2 == 1, v % 4))
    else if ir == 0x0b then s.(columns := Ends(v))
    else if ir == 0x0c then s.(rows := Ends(v))
    else if ir == 0x0d then s.(screen1 := Ends(v))
    else if ir == 0x0e then s.(screen2 := Ends(v))
    else s
  }

  /** A word written to the register that the index register selects. */
  function DataWrite(d: Device, v: u16): (Device, Res)
    requires Sound(d)
  {
    var r := d.regs;
    var d := d.(stored := Store(d.stored, d.ir, v));
    if d.ir == 0x01 then
      (d.(regs := r.(cms := v / 512 % 2 == 1, sgs := v / 256 % 2 == 1, nl := v % 32)), Ok)
    else if d.ir == 0x05 then
      var am := v / 4 % 4;
      (d.(regs := r.(id := v / 16 % 2 == 1, am := am, lg := v % 4)), if am == 3 then Violation(Error) else Ok)
    else if d.ir == 0x06 then (d.(regs := r.(rt := v % 8)), Ok)
    else if d.ir == 0x07 then (d.(regs := r.(rev := v / 2 % 2 == 1)), Ok)
    else if d.ir == 0x08 then (d, Violation(if v / 4 % 2 == 1 then Warn else Info))
    else if d.ir == 0x10 then (d.(regs := r.(wm := v)), Ok)
    else if d.ir == 0x11 then (d.(ac := v % CGRAM_LEN), Ok)
    else if d.ir == 0x12 then
      var written := d.cgram[d.ac := Cell(r, d.cgram[d.ac], v)];
      if r.am != 0 then (d.(cgram := written), Fatal)
      else (d.(cgram := written, ac := NextAc(d.ac, r.id)), Ok)
    else if d.ir == 0x0f || d.ir > 0x12 then (d, Fatal)
    else (d, Ok)
  }

  /** One byte written at an offset: the first byte of a pair is kept whatever its offset, the
      offset of the second says where the pair goes. */
  function Send(d: Device, offset: nat, value: u32): (Device, Res)
    requires Sound(d)
  {
    if offset == 0 then (d, StubWrite)
    else if d.latch.None? then (d.(latch := Some(value % 256)), Ok)
    else
      var word := d.latch.value * 256 + value % 256;
      var d1 := d.(latch := None);
      if offset == 0x8 then (d1.(ir := word), if word > 0x12 then Violation(Error) else Ok)
      else if offset == 0x10 then DataWrite(d1, word)
      else (d1, Unexpected)
  }

  // ---------------------------------------------------------------- the registers

  function Flag(b: bool): nat { if b then 1 else 0 }

  /** What a register holds, put together as the word that would set it. */
  function Image(d: Device, ir: nat): nat {
    var r, s := d.regs, d.stored;
    match ir
    case 0x01 => r.nl + 0x100 * Flag(r.sgs) + 0x200 * Flag(r.cms)
    case 0x02 => s.wave.nw + 0x20 * Flag(s.wave.eor) + 0x40 * Flag(s.wave.bc)
    case 0x03 =>
      Flag(s.power.stb) + 2 * Flag(s.power.slp) + 4 * s.power.ap + 0x10 * s.power.dc + 0x40 * s.power.ps
      + 0x100 * s.power.bt + 0x400 * s.power.bs
    case 0x04 => s.contrast.ct + 0x100 * s.contrast.vr
    case 0x05 => r.lg + 4 * r.am + 0x10 * Flag(r.id)
    case 0x06 => r.rt
    case 0x07 =>
      Flag(s.display.on) + 2 * Flag(r.rev) + 4 * s.display.gsl + 0x10 * s.display.gsh + 0x100 * Flag(s.display.spt)
    case 0x08 => s.cursor.cm + 4 * Flag(s.cursor.on)
    case 0x0b => s.columns.start + 0x100 * s.columns.end
    case 0x0c => s.rows.start + 0x100 * s.rows.end
    case 0x0d => s.screen1.start + 0x100 * s.screen1.end
    case 0x0e => s.screen2.start + 0x100 * s.screen2.end
    case 0x10 => r.wm
    case 0x11 => d.ac
    case _ => 0
  }

  /** The part of a word that a register has bits for. */
  function Used(ir: nat, v: u16): nat {
    match ir
    case 0x01 => v % 0x20 + 0x100 * (v / 0x100 % 4)
    case 0x02 => v % 0x80
    case 0x03 => v % 0x2000
    case 0x04 => v % 0x80 + 0x100 * (v / 0x100 % 8)
    case 0x05 => v % 0x20
    case 0x06 => v % 8
    case 0x07 => v % 0x40 + 0x100 * (v / 0x100 % 2)
    case 0x08 => v % 8
    case 0x0b | 0x0c | 0x0d | 0x0e | 0x10 => v
    case 0x11 => v % CGRAM_LEN
    case _ => 0
  }

  /** Neighbouring fields of a word. */
  lemma Fields(v: nat, a: nat, b: nat)
    requires a > 0 && b > 0
    ensures a * b > 0 && v % (a * b) == v % a + a * (v / a % b)
  {
    var m := v / a;
    var q, f := m / b, m % b;
    Divide(v, a);
    Divide(m, b);
    ProductOrder(b, f + 1, a);
    ProductOrder(a, 1, b);
    assert v == q * (a * b) + (a * f + v % a) by { Regroup(a, b, q, f); }
    Quotient(q, a * f + v % a, a * b);
  }

  lemma Regroup(a: nat, b: nat, q: nat, f: nat)
    ensures (q * b + f) * a == q * (a * b) + a * f
  {
  }

  lemma PowerFields(v: u16)
    ensures v % 2 + 2 * (v / 2 % 2) + 4 * (v / 4 % 4) + 0x10 * (v / 0x10 % 4) + 0x40 * (v / 0x40 % 4)
            + 0x100 * (v / 0x100 % 4) + 0x400 * (v / 0x400 % 8) == v % 0x2000
  {
    Fields(v, 2, 2);
    Fields(v, 4, 4);
    Fields(v, 0x10, 4);
    Fields(v, 0x40, 4);
    Fields(v, 0x100, 4);
    Fields(v, 0x400, 8);
  }

  lemma WaveFields(v: u16)
    ensures v % 0x20 + 0x20 * (v / 0x20 % 2) + 0x40 * (v / 0x40 % 2) == v % 0x80
  {
    Fields(v, 0x20, 2);
    Fields(v, 0x40, 2);
  }

  lemma TopFields(v: u16)
    ensures v / 0x100 % 2 + 2 * (v / 0x200 % 2) == v / 0x100 % 4
  {
    Fields(v / 0x100, 2, 2);
    assert v / 0x100 / 2 == v / 0x200;
  }

  lemma EntryFields(v: u16)
    ensures v % 4 + 4 * (v / 4 % 4) + 0x10 * (v / 0x10 % 2) == v % 0x20
  {
    Fields(v, 4, 4);
    Fields(v, 0x10, 2);
  }

  lemma DisplayFields(v: u16)
    ensures v % 2 + 2 * (v / 2 % 2) + 4 * (v / 4 % 4) + 0x10 * (v / 0x10 % 4) == v % 0x40
  {
    Fields(v, 2, 2);
    Fields(v, 4, 4);
    Fields(v, 0x10, 4);
  }

  /** A word written to a register is what the register holds then, as far as it has bits for it, and no
      other register changes; a word written to the graphics RAM moves only the address counter. */
  lemma RegisterWritten(d: Device, v: u16, ir: nat)
    requires Sound(d)
    ensures var d' := DataWrite(d, v).0;
            && (ir == d.ir ==> Image(d', ir) == Used(ir, v))
            && (ir != d.ir && !(ir == 0x11 && d.ir == 0x12) ==> Image(d', ir) == Image(d, ir))
  {
    hide DataWrite, Store, Used;
    if ir == d.ir {
      HeldWord(d, v);
    } else {
      OtherRegs(d, v);
      OtherStored(d.stored, d.ir, v);
      OtherRanges(d.stored, d.ir, v);
    }
  }

  lemma OtherRegs(d: Device, v: u16)
    requires Sound(d)
    ensures var d' := DataWrite(d, v).0;
            var r, r' := d.regs, d'.regs;
            && d'.stored == Store(d.stored, d.ir, v)
            && (d.ir != 0x01 ==> r'.cms == r.cms && r'.sgs == r.sgs && r'.nl == r.nl)
            && (d.ir != 0x05 ==> r'.id == r.id && r'.am == r.am && r'.lg == r.lg)
            && (d.ir != 0x06 ==> r'.rt == r.rt) && (d.ir != 0x07 ==> r'.rev == r.rev)
            && (d.ir != 0x10 ==> r'.wm == r.wm) && (d.ir != 0x11 && d.ir != 0x12 ==> d'.ac == d.ac)
  {
    hide Store, Cell, NextAc;
  }

  lemma OtherStored(s: Stored, ir: u16, v: u16)
    ensures var s' := Store(s, ir, v);
            && (ir != 0x02 ==> s'.wave == s.wave) && (ir != 0x03 ==> s'.power == s.power)
            && (ir != 0x04 ==> s'.contrast == s.contrast) && (ir != 0x07 ==> s'.display == s.display)
            && (ir != 0x08 ==> s'.cursor == s.cursor)
  {
  }

  lemma OtherRanges(s: Stored, ir: u16, v: u16)
    ensures var s' := Store(s, ir, v);
            && (ir != 0x0b ==> s'.columns == s.columns) && (ir != 0x0c ==> s'.rows == s.rows)
            && (ir != 0x0d ==> s'.screen1 == s.screen1) && (ir != 0x0e ==> s'.screen2 == s.screen2)
  {
  }

  lemma HeldWord(d: Device, v: u16)
    requires Sound(d)
    ensures Image(DataWrite(d, v).0, d.ir) == Used(d.ir, v)
  {
    hide DataWrite, Image, Used;
    if d.ir <= 0x04 { HeldLow(d, v); } else if d.ir <= 0x08 { HeldMiddle(d, v); } else { HeldHigh(d, v); }
  }

  lemma HeldLow(d: Device, v: u16)
    requires Sound(d) && d.ir <= 0x04
    ensures Image(DataWrite(d, v).0, d.ir) == Used(d.ir, v)
  {
    match d.ir
    case 0x01 => TopFields(v);
    case 0x02 => WaveFields(v);
    case 0x03 => PowerFields(v);
    case _ =>
  }

  lemma HeldMiddle(d: Device, v: u16)
    requires Sound(d) && 0x05 <= d.ir <= 0x08
    ensures Image(DataWrite(d, v).0, d.ir) == Used(d.ir, v)
  {
    match d.ir
    case 0x05 => EntryFields(v);
    case 0x07 => DisplayFields(v);
    case 0x08 => Fields(v, 4, 2);
    case _ =>
  }

  lemma HeldHigh(d: Device, v: u16)
    requires Sound(d) && d.ir >= 0x09
    ensures Image(DataWrite(d, v).0, d.ir) == Used(d.ir, v)
  {
    hide Cell, NextAc;
    Divide(v, 0x100);
  }

  /** Which byte writes end the emulation: the second byte of a pair to an offset that is no register, an
      index above 0x12, entry mode 3, a register that is none, and a word for the graphics RAM in an entry
      mode other than 0. */
  lemma EndsExactly(d: Device, offset: nat, value: u32)
    requires Sound(d)
    ensures Halts(Send(d, offset, value).1) <==>
            && offset != 0 && d.latch.Some?
            && var word := d.latch.value * 256 + value % 256;
               if offset == 0x8 then word > 0x12
               else if offset == 0x10 then
                 || d.ir == 0x0f || d.ir > 0x12
                 || (d.ir == 0x05 && BitOf(word, 2) && BitOf(word, 3))
                 || (d.ir == 0x12 && d.regs.am != 0)
               else true
  {
    hide DataWrite, BitOf;
    if offset == 0x10 && d.latch.Some? { DataEnds(d.(latch := None), d.latch.value * 256 + value % 256); }
  }

  lemma DataEnds(d: Device, v: u16)
    requires Sound(d)
    ensures Halts(DataWrite(d, v).1) <==>
            || d.ir == 0x0f || d.ir > 0x12
            || (d.ir == 0x05 && BitOf(v, 2) && BitOf(v, 3)) || (d.ir == 0x12 && d.regs.am != 0)
    ensures !Halts(DataWrite(d, v).1) ==>
              DataWrite(d, v).1 == if d.ir == 0x08 then Violation(if BitOf(v, 2) then Warn else Info) else Ok
  {
    hide Store, Cell, NextAc, BitOf;
    BothSet(v);
  }

  lemma BothSet(v: nat)
    ensures v / 4 % 4 == 3 <==> BitOf(v, 2) && BitOf(v, 3)
    ensures v / 4 % 2 == 1 <==> BitOf(v, 2)
  {
    BitFurther(v, 2);
    BitFurther(v, 3);
    Fields(v / 4, 2, 2);
  }

  /** A controller after reset. */
  function Fresh(): Device { Device(None, 0, 0, seq<u16>(CGRAM_LEN, _ => 0), RESET, NOTHING_STORED) }

  /** After reset the only register with a bit set is the number of lines, all ones. */
  lemma FreshRegisters(ir: nat)
    ensures Sound(Fresh()) && Image(Fresh(), ir) == if ir == 0x01 then 0x1f else 0
  {
  }

  class Hd66753 {
    var latch: Option<u8>
    var ir: u16
    var ac: nat
    const cgram: array<u16>
    var regs: Regs
    var stored: Stored

    ghost const Repr: set<object> := {this, cgram}

    ghost function Abs(): Device reads Repr { Device(latch, ir, ac, cgram[..], regs, stored) }

    constructor ()
      ensures fresh(Repr) && Sound(Abs())
      ensures Abs() == Fresh()
    {
      latch, ir, ac, regs, stored := None, 0, 0, RESET, NOTHING_STORED;
      cgram := new u16[CGRAM_LEN](_ => 0);
      new;
      assert cgram[..] == seq(CGRAM_LEN, _ => 0);
    }

    method W32(offset: nat, value: u32) returns (r: Res)
      requires Sound(Abs())
      modifies Repr
      ensures Sound(Abs()) && (Abs(), r) == Send(old(Abs()), offset, value)
    {
      if offset == 0 { return StubWrite; }
      if latch.None? {
        latch := Some(value % 256);
        return Ok;
      }
      var word := latch.value * 256 + value % 256;
      latch := None;
      if offset == 0x8 {
        ir := word;
        return if ir > 0x12 then Violation(Error) else Ok;
      }
      if offset != 0x10 { return Unexpected; }
      r := HandleDataWrite(word);
    }

    method HandleDataWrite(v: u16) returns (r: Res)
      requires Sound(Abs())
      modifies this`ac, this`regs, this`stored, cgram
      ensures Sound(Abs()) && (Abs(), r) == DataWrite(old(Abs()), v)
    {
      r := Ok;
      if ir == 0x01 {
        regs := regs.(cms := v / 512 % 2 == 1, sgs := v / 256 % 2 == 1, nl := v % 32);
      } else if ir == 0x02 {
        stored := stored.(wave := Wave(v % 32, v / 32 % 2 == 1, v / 64 % 2 == 1));
      } else if ir == 0x03 {
        stored := stored.(power := Power(v % 2 == 1, v / 2 % 2 == 1, v / 4 % 4, v / 16 % 4, v / 64 % 4,
                                         v / 256 % 4, v / 1024 % 8));
      } else if ir == 0x04 {
        stored := stored.(contrast := Contrast(v / 256 % 8, v % 128));
      } else if ir == 0x05 {
        regs := regs.(id := v / 16 % 2 == 1, am := v / 4 % 4, lg := v % 4);
        if regs.am == 3 { r := Violation(Error); }
      } else if ir == 0x06 {
        regs := regs.(rt := v % 8);
      } else if ir == 0x07 {
        stored := stored.(display := Display(v / 256 % 2 == 1, v / 16 % 4, v / 4 % 4, v % 2 == 1));
        regs := regs.(rev := v / 2 % 2 == 1);
      } else if ir == 0x08 {
        stored := stored.(cursor := Cursor(v / 4 % 2 == 1, v % 4));
        r := Violation(if stored.cursor.on then Warn else Info);
      } else if ir == 0x0b {
        stored := stored.(columns := Range(v % 256, v / 256));
      } else if ir == 0x0c {
        stored := stored.(rows := Range(v % 256, v / 256));
      } else if ir == 0x0d {
        stored := stored.(screen1 := Range(v % 256, v / 256));
      } else if ir == 0x0e {
        stored := stored.(screen2 := Range(v % 256, v / 256));
      } else if ir == 0x10 {
        regs := regs.(wm := v);
      } else if ir == 0x11 {
        ac := v % CGRAM_LEN;
      } else if ir == 0x12 {
        cgram[ac] := Cell(regs, cgram[ac], v);
        if regs.am != 0 { return Fatal; }
        ac := NextAc(ac, regs.id);
      } else if ir == 0x0f || ir > 0x12 {
        r := Fatal;
      }
    }
  }

  // ---------------------------------------------------------------- the frame

  const PALETTE: seq<u32> := [0xff000000, 0xff686868, 0xffb8b8b9, 0xffffffff]

  function Height(nl: u8): nat { if nl == 31 then 132 else (nl + 1) * 8 }

  function FourTo(n: nat): (r: nat)
    ensures r >= 1
  {
    if n == 0 then 1 else 4 * FourTo(n - 1)
  }

  function Reverse<T>(s: seq<T>): (r: seq<T>)
    ensures |r| == |s| && forall i :: 0 <= i < |s| ==> r[i] == s[|s| - 1 - i]
  {
    if s == [] then [] else Reverse(s[1..]) + [s[0]]
  }

  /** Eight pixels of one word, two bits each. */
  function WordPixels(w: u16, r: Regs): (p: seq<u32>)
    ensures |p| == 8
  {
    seq(8, i requires 0 <= i < 8 =>
      var shade := w / FourTo(if r.sgs then i else 7 - i) % 4;
      PALETTE[if r.rev then shade else 3 - shade])
  }

  /** The words of the first `rows` rows, each row mirrored unless SGS is set. */
  function Window(cgram: seq<u16>, rows: nat, sgs: bool): (w: seq<u16>)
    requires ROW_STRIDE * rows <= |cgram|
    ensures |w| == ROW_WORDS * rows
  {
    if rows == 0 then []
    else
      Window(cgram, rows - 1, sgs) + RowWords(cgram, rows - 1, sgs)
  }

  function RowWords(cgram: seq<u16>, y: nat, sgs: bool): (w: seq<u16>)
    requires ROW_STRIDE * (y + 1) <= |cgram|
    ensures |w| == ROW_WORDS
    ensures forall i :: 0 <= i < ROW_WORDS ==> w[i] == cgram[ROW_STRIDE * y + if sgs then i else 20 - i]
  {
    var row := cgram[ROW_STRIDE * y..ROW_STRIDE * y + ROW_WORDS];
    if sgs then row else Reverse(row)
  }

  function FlatPixels(words: seq<u16>, r: Regs): (p: seq<u32>)
    ensures |p| == 8 * |words|
  {
    if words == [] then [] else FlatPixels(words[..|words| - 1], r) + WordPixels(words[|words| - 1], r)
  }

  function Frame(cgram: seq<u16>, r: Regs): seq<u32>
    requires |cgram| == CGRAM_LEN && Height(r.nl) <= 132
  {
    FlatPixels(Window(cgram, Height(r.nl), r.sgs), r)
  }

  lemma {:induction false} FlatPixelAt(words: seq<u16>, r: Regs, i: nat, j: nat)
    requires i < |words| && j < 8
    ensures FlatPixels(words, r)[8 * i + j] == WordPixels(words[i], r)[j]
    decreases |words|
  {
    if i < |words| - 1 { FlatPixelAt(words[..|words| - 1], r, i, j); }
  }

  lemma {:induction false} WindowAt(cgram: seq<u16>, rows: nat, sgs: bool, y: nat, i: nat)
    requires ROW_STRIDE * rows <= |cgram| && y < rows && i < ROW_WORDS
    ensures 0 <= ROW_WORDS * y + i < ROW_WORDS * rows
    ensures Window(cgram, rows, sgs)[ROW_WORDS * y + i] ==
            cgram[ROW_STRIDE * y + if sgs then i else 20 - i]
  {
    hide RowWords;
    var above, row := Window(cgram, rows - 1, sgs), RowWords(cgram, rows - 1, sgs);
    if y < rows - 1 {
      WindowAt(cgram, rows - 1, sgs, y, i);
      assert (above + row)[ROW_WORDS * y + i] == above[ROW_WORDS * y + i];
    } else {
      assert (above + row)[|above| + i] == row[i];
    }
  }

  /** The four shades, from the brightest. */
  function Grey(shade: nat): u32 {
    if shade == 0 then 0xff_ff_ff_ff
    else if shade == 1 then 0xff_b8_b8_b9
    else if shade == 2 then 0xff_68_68_68
    else 0xff_00_00_00
  }

  /** What is shown in row y at pixel j of word i: two bits of that word of the row. */
  lemma FrameAt(cgram: seq<u16>, r: Regs, i: nat, j: nat, y: nat)
    requires |cgram| == CGRAM_LEN && Height(r.nl) <= 132 && i < ROW_WORDS && j < 8 && y < Height(r.nl)
    ensures |Frame(cgram, r)| == CGRAM_WIDTH * Height(r.nl) && 0 <= CGRAM_WIDTH * y + 8 * i + j < |Frame(cgram, r)|
    ensures Frame(cgram, r)[CGRAM_WIDTH * y + 8 * i + j] ==
            WordPixels(cgram[ROW_STRIDE * y + if r.sgs then i else 20 - i], r)[j]
  {
    hide Window, FlatPixels, WordPixels;
    WindowAt(cgram, Height(r.nl), r.sgs, y, i);
    FlatPixelAt(Window(cgram, Height(r.nl), r.sgs), r, ROW_WORDS * y + i, j);
    assert 8 * (ROW_WORDS * y + i) + j == CGRAM_WIDTH * y + 8 * i + j;
  }

  lemma {:induction false} TwoBits(w: nat, k: nat)
    ensures w / FourTo(k) % 4 == (if BitOf(w, 2 * k + 1) then 2 else 0) + (if BitOf(w, 2 * k) then 1 else 0)
  {
    if k > 0 {
      TwoBits(w / 4, k - 1);
      QuarterFirst(w, FourTo(k - 1));
      BitFurther(w, 2 * k);
      BitFurther(w, 2 * k + 1);
    } else {
      assert FourTo(0) == 1;
    }
  }

  lemma QuarterFirst(w: nat, d: nat)
    requires d > 0
    ensures w / (4 * d) == w / 4 / d
  {
    var m := w / 4;
    var q, r := m / d, m % d;
    Divide(m, d);
    Quotient(q, 4 * r + w % 4, 4 * d);
    assert w == q * (4 * d) + (4 * r + w % 4);
  }

  lemma BitFurther(w: nat, k: nat)
    requires k >= 2
    ensures BitOf(w, k) == BitOf(w / 4, k - 2)
  {
    assert w / 2 / 2 == w / 4;
    assert BitOf(w, k) == BitOf(w / 2, k - 1) == BitOf(w / 2 / 2, k - 2);
  }

  /** Every pixel of the frame, for both directions and both polarities: word i of row y counted from the
      side SGS says, its bits 2k + 1 and 2k with k counted the same way, and the darker the higher unless
      REV turns that round. */
  lemma PixelShown(cgram: seq<u16>, r: Regs, i: nat, j: nat, y: nat)
    requires |cgram| == CGRAM_LEN && Height(r.nl) <= 132 && i < ROW_WORDS && j < 8 && y < Height(r.nl)
    ensures |Frame(cgram, r)| == CGRAM_WIDTH * Height(r.nl) && 0 <= CGRAM_WIDTH * y + 8 * i + j < |Frame(cgram, r)|
    ensures var word, k := cgram[32 * y + (if r.sgs then i else 20 - i)], if r.sgs then j else 7 - j;
            var level := (if BitOf(word, 2 * k + 1) then 2 else 0) + (if BitOf(word, 2 * k) then 1 else 0);
            Frame(cgram, r)[CGRAM_WIDTH * y + 8 * i + j] == Grey(if r.rev then 3 - level else level)
  {
    hide Frame;
    FrameAt(cgram, r, i, j, y);
    TwoBits(cgram[32 * y + (if r.sgs then i else 20 - i)], if r.sgs then j else 7 - j);
  }

  /** The same for a mirrored screen with normal polarity. */
  lemma MirroredPixel(cgram: seq<u16>, r: Regs, i: nat, j: nat, y: nat)
    requires |cgram| == CGRAM_LEN && Height(r.nl) <= 132 && i < ROW_WORDS && j < 8 && y < Height(r.nl)
    requires !r.sgs && !r.rev
    ensures |Frame(cgram, r)| == CGRAM_WIDTH * Height(r.nl) && 0 <= CGRAM_WIDTH * y + 8 * i + j < |Frame(cgram, r)|
    ensures Frame(cgram, r)[CGRAM_WIDTH * y + 8 * i + j] ==
            PALETTE[3 - cgram[ROW_STRIDE * y + 20 - i] / FourTo(7 - j) % 4]
  {
    FrameAt(cgram, r, i, j, y);
  }

  /** ... and the frame is 132 white rows. */
  lemma FreshIsBlank(i: nat, j: nat, y: nat)
    requires i < ROW_WORDS && j < 8 && y < 132
    ensures Height(RESET.nl) == 132 && |Frame(Fresh().cgram, RESET)| == 168 * 132
    ensures Frame(Fresh().cgram, RESET)[168 * y + 8 * i + j] == 0xffff_ffff
  {
    hide Frame;
    PixelShown(Fresh().cgram, RESET, i, j, y);
    NoBits(2 * (7 - j) + 1);
    NoBits(2 * (7 - j));
  }
}
