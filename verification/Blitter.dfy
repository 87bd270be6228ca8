/** The bootloader's grayscale blitter and the byte stream it sends to the LCD controller.  End
    to end, what is drawn is what is shown. */
module Blitter {
  import opened Prim
  import opened Arith
  import opened Lcd

  const LCD_CMD := 0x8
  const LCD_DATA := 0x10

  const R_DRV_OUTPUT_CONTROL := 0x01
  const R_ENTRY_MODE := 0x05
  const R_RAM_ADDR_SET := 0x11
  const R_RAM_DATA := 0x12

  /** Brightness of an RGB565 pixel. */
  function Luma565(v: u16): (l: int)
    ensures 0 <= l <= 0xff
  {
    var mean := (v / 2048 * 8 + v / 32 % 64 * 4 + v % 32 * 8) / 3;
    if mean > 0xff then 0xff else mean
  }

  function Shade(v: u16): (s: nat)
    ensures s < 4
  {
    Luma565(v) / 64
  }

  /** Brightness in the colours themselves: with red, green and blue scaled to 8 bits, the mean, cut down;
      the shade is its upper two bits. */
  lemma LumaIsMean(red: nat, green: nat, blue: nat)
    requires red < 32 && green < 64 && blue < 32
    ensures var v := red * 2048 + green * 32 + blue;
            && v < 0x1_0000
            && 3 * Luma565(v) <= 8 * red + 4 * green + 8 * blue <= 3 * Luma565(v) + 2
            && 64 * Shade(v) <= Luma565(v) < 64 * (Shade(v) + 1)
  {
    var v := red * 2048 + green * 32 + blue;
    Quotient(red, green * 32 + blue, 2048);
    Quotient(red * 64 + green, blue, 32);
    Quotient(red, green, 64);
  }

  /** Pixels packed two bits each, the first one on top. */
  function Pack(s: seq<u16>): (w: nat)
    ensures w < FourTo(|s|)
  {
    if s == [] then 0 else 4 * Pack(s[..|s| - 1]) + Shade(s[|s| - 1])
  }

  lemma {:induction false} PackedPixel(s: seq<u16>, j: nat)
    requires j < |s|
    ensures Pack(s) / FourTo(|s| - 1 - j) % 4 == Shade(s[j])
    decreases |s|
  {
    var p, v := Pack(s[..|s| - 1]), Shade(s[|s| - 1]);
    if j < |s| - 1 {
      PackedPixel(s[..|s| - 1], j);
      DropPixel(p, v, FourTo(|s| - 2 - j));
    } else {
      LastPixel(p, v);
    }
  }

  lemma LastPixel(p: nat, v: nat)
    requires v < 4
    ensures (4 * p + v) / FourTo(0) % 4 == v
  {
    assert (4 * p + v) % 4 == v;
  }

  lemma DropPixel(p: nat, v: nat, d: nat)
    requires v < 4 && d > 0
    ensures (4 * p + v) / (4 * d) == p / d
  {
    var q, r := p / d, p % d;
    assert p == d * q + r;
    assert 4 * p + v == (4 * d) * q + (4 * r + v);
    Quotient(q, 4 * r + v, 4 * d);
  }

  lemma FourTo8()
    ensures FourTo(8) == 0x1_0000
  {
    assert FourTo(4) == 256;
  }

  function PackWord(s: seq<u16>): u16
    requires |s| == 8
  {
    FourTo8();
    Pack(s)
  }

  /** The driver, with the controller at the other end of its two registers.  The controller is
      never busy, so waiting for it touches nothing. */
  class Panel {
    var lcd: Device

    /** Between two words, and with entry modes the controller implements. */
    predicate Ready()
      reads this
    {
      Sound(lcd) && lcd.latch.None?
    }

    method Outl(value: u32, offset: nat)
      requires Sound(lcd) && !Halts(Send(lcd, offset, value).1)
      modifies this
      ensures Sound(lcd) && lcd == Send(old(lcd), offset, value).0
    {
      lcd := Send(lcd, offset, value).0;
    }

    /** The high byte first: the pair arrives as one word. */
    method SendData(hi: u8, lo: u8)
      requires Ready() && !Halts(DataWrite(lcd, hi * 256 + lo).1)
      modifies this
      ensures Ready() && lcd == DataWrite(old(lcd), hi * 256 + lo).0
    {
      TwoBytes(lcd, hi, lo);
      Outl(hi, LCD_DATA);
      Outl(lo, LCD_DATA);
    }

    method PrepareCmd(cmd: u8)
      requires Ready() && cmd <= 0x12
      modifies this
      ensures Ready() && lcd == old(lcd).(ir := cmd)
    {
      Outl(0, LCD_CMD);
      Outl(cmd, LCD_CMD);
    }

    method CmdAndDataHiLo(cmd: u8, hi: u8, lo: u8)
      requires Ready() && cmd <= 0x12 && !Halts(DataWrite(lcd.(ir := cmd), hi * 256 + lo).1)
      modifies this
      ensures Ready() && lcd == DataWrite(old(lcd).(ir := cmd), hi * 256 + lo).0
    {
      PrepareCmd(cmd);
      SendData(hi, lo);
    }

    method CmdAndData16(cmd: u8, data: u16)
      requires Ready() && cmd <= 0x12 && !Halts(DataWrite(lcd.(ir := cmd), data).1)
      modifies this
      ensures Ready() && lcd == DataWrite(old(lcd).(ir := cmd), data).0
    {
      assert data / 256 * 256 + data % 256 == data;
      CmdAndDataHiLo(cmd, data / 256, data % 256);
    }

    /** The register writes for hardware version 5: 128 rows, mirrored, counting down. */
    method FbInit()
      requires Ready()
      modifies this
      ensures Ready()
      ensures lcd == old(lcd).(ir := R_ENTRY_MODE,
                               regs := old(lcd).regs.(cms := false, sgs := false, nl := 15, id := false, am := 0, lg := 0))
    {
      CmdAndDataHiLo(R_DRV_OUTPUT_CONTROL, 0x0, 0xf);
      CmdAndDataHiLo(R_ENTRY_MODE, 0x0, 0x00);
    }

    /** Entry mode and masks under which a data write stores the word and counts down. */
    predicate Plain()
      reads this
    {
      lcd.regs.am == 0 && !lcd.regs.id && lcd.regs.rt == 0 && lcd.regs.lg == 0 && lcd.regs.wm == 0
    }

    /** Eight pixels, downsampled and packed. */
    method PackPixels(fb: array<u16>, p: nat) returns (pix: u16)
      requires p + 8 <= fb.Length
      ensures pix == PackWord(fb[p..p + 8])
    {
      FourTo8();
      var w := 0;
      for i := 0 to 8
        invariant w == Pack(fb[p..p + i])
      {
        assert fb[p..p + i + 1][..i] == fb[p..p + i];
        w := w * 4 + Shade(fb[p + i]);
      }
      pix := w;
    }

    method SendPixels(fb: array<u16>, p: nat)
      requires Ready() && Plain() && lcd.ir == R_RAM_DATA && p + 8 <= fb.Length
      modifies this
      ensures Ready()
      ensures lcd == old(lcd).(cgram := old(lcd).cgram[old(lcd).ac := PackWord(fb[p..p + 8])],
                               ac := NextAc(old(lcd).ac, false))
    {
      hide Cell, NextAc, PackWord;
      var pix := PackPixels(fb, p);
      PlainCell(lcd.regs, lcd.cgram[lcd.ac], pix);
      assert pix / 256 * 256 + pix % 256 == pix;
      SendData(pix / 256, pix % 256);
    }

    /** The address of the last shown word of a row, and data to follow. */
    method StartRow(y: nat)
      requires Ready() && y < 132
      modifies this
      ensures Ready() && lcd == old(lcd).(ac := 32 * y + 20, ir := R_RAM_DATA)
    {
      CmdAndData16(R_RAM_ADDR_SET, y * 32 + 20);
      PrepareCmd(R_RAM_DATA);
    }

    /** One row: the address of its last shown word, then `n` words, right to left in memory. */
    method BlitRow(fb: array<u16>, p: nat, y: nat, n: nat)
      requires Ready() && Plain() && y < 132 && n <= ROW_WORDS && p + 8 * n <= fb.Length
      modifies this
      ensures Ready() && lcd.regs == old(lcd).regs
      ensures RowDone(lcd.cgram, old(lcd).cgram, fb[..], p, y, n)
    {
      hide RowDone, PackWord, NextAc;
      StartRow(y);
      NothingDone(lcd.cgram, fb[..], p, y);
      var x := 0;
      while x < n
        invariant x <= n && Ready() && lcd.ir == R_RAM_DATA && lcd.regs == old(lcd).regs
        invariant x <= 20 ==> lcd.ac == 32 * y + 20 - x
        invariant RowDone(lcd.cgram, old(lcd).cgram, fb[..], p, y, x)
      {
        ghost var before := lcd.cgram;
        SendPixels(fb, p + 8 * x);
        assert fb[..][p + 8 * x..p + 8 * x + 8] == fb[p + 8 * x..p + 8 * x + 8];
        OneWordMore(before, old(lcd).cgram, fb[..], p, y, x);
        if x < 20 { StepBack(y, 20 - x); }
        x := x + 1;
      }
    }

    /** The whole rectangle, row by row; the pixels come from `fb` without gaps. */
    method Bitblt(fb: array<u16>, sx: nat, sy: nat, mx: nat, my: nat)
      requires Ready() && Plain() && my <= 132 && sx / 8 <= mx / 8 <= sx / 8 + ROW_WORDS && sy <= my
      requires RowStart(my - sy, mx / 8 - sx / 8) <= fb.Length
      modifies this
      ensures Ready() && lcd.regs == old(lcd).regs
      ensures Drawn(lcd.cgram, old(lcd).cgram, fb[..], sy, my, mx / 8 - sx / 8)
    {
      var n := mx / 8 - sx / 8;
      var y, p := sy, 0;
      while y < my
        invariant sy <= y <= my && p == RowStart(y - sy, n)
        invariant Ready() && lcd.regs == old(lcd).regs
        invariant Drawn(lcd.cgram, old(lcd).cgram, fb[..], sy, y, n)
      {
        RowFits(y - sy, my - sy, n);
        ghost var before := lcd.cgram;
        BlitRow(fb, p, y, n);
        DrawnRow(lcd.cgram, before, old(lcd).cgram, fb[..], sy, y, n);
        y, p := y + 1, p + 8 * n;
      }
    }

    /** Start-up and one update of a 160 x 128 screen whose rotation, mask and polarity are as
        after reset. */
    method DrawScreen(fb: array<u16>)
      requires Ready() && lcd.regs.rt == 0 && lcd.regs.wm == 0 && !lcd.regs.rev && fb.Length == 160 * 128
      modifies this
      ensures Ready() && Height(lcd.regs.nl) == 128
      ensures forall x, y :: 0 <= x < 160 && 0 <= y < 128 ==>
                PixelAt(lcd, x, y) == Some(PALETTE[3 - Shade(fb[160 * y + x])])
    {
      hide PixelAt, Drawn, Shade, RowStart, PALETTE;
      FbInit();
      RowOf160(128);
      ghost var was := lcd.cgram;
      Bitblt(fb, 0, 0, 160, 128);
      PictureIsShown(lcd, was, fb[..]);
    }
  }

  /** The colour shown at (x, y), if the screen reaches that far. */
  function PixelAt(d: Device, x: nat, y: nat): Option<u32> {
    if |d.cgram| == CGRAM_LEN && Height(d.regs.nl) <= 132 && CGRAM_WIDTH * y + x < |Frame(d.cgram, d.regs)|
    then Some(Frame(d.cgram, d.regs)[CGRAM_WIDTH * y + x]) else None
  }

  lemma DataKeeps(d: Device, v: u16)
    requires Sound(d)
    ensures DataWrite(d, v).0.latch == d.latch && Sound(DataWrite(d, v).0)
  {
    hide Store, Cell, NextAc;
  }

  lemma TwoBytes(d: Device, hi: u8, lo: u8)
    requires Sound(d) && d.latch.None?
    ensures Send(d, LCD_DATA, hi) == (d.(latch := Some(hi)), Ok)
    ensures Send(d.(latch := Some(hi)), LCD_DATA, lo) == DataWrite(d, hi * 256 + lo)
    ensures DataWrite(d, hi * 256 + lo).0.latch.None? && Sound(DataWrite(d, hi * 256 + lo).0)
  {
    hide DataWrite;
    assert hi % 256 == hi && lo % 256 == lo;
    DataKeeps(d, hi * 256 + lo);
    assert d.(latch := Some(hi)).(latch := None) == d;
  }

  /** Where row i of a picture starts whose rows are n words of eight pixels. */
  function RowStart(i: nat, n: nat): nat { if i == 0 then 0 else RowStart(i - 1, n) + 8 * n }

  lemma {:induction false} RowFits(i: nat, rows: nat, n: nat)
    requires i < rows
    ensures RowStart(i, n) + 8 * n <= RowStart(rows, n)
    decreases rows
  {
    if i < rows - 1 { RowFits(i, rows - 1, n); }
  }

  lemma {:induction false} RowOf160(y: nat)
    ensures RowStart(y, 20) == 160 * y
  {
    if y > 0 { RowOf160(y - 1); }
  }

  /** The word shown x words from the left in row y. */
  function WordAt(cgram: seq<u16>, y: nat, x: nat): u16
    requires |cgram| == CGRAM_LEN && y < 132 && x < ROW_WORDS
  {
    cgram[32 * y + 20 - x]
  }

  /** The word that the eight pixels from p on pack into. */
  function Source(fb: seq<u16>, p: nat): u16 {
    if p + 8 <= |fb| then PackWord(fb[p..p + 8]) else 0
  }

  predicate InRect(sy: nat, my: nat, n: nat, a: nat) { sy <= a / 32 < my && 20 - n < a % 32 <= 20 }

  /** `cgram` is `was` with the rows sy..my of the picture drawn into it, n words a row, and
      nothing else. */
  predicate Drawn(cgram: seq<u16>, was: seq<u16>, fb: seq<u16>, sy: nat, my: nat, n: nat) {
    && |cgram| == |was| == CGRAM_LEN && my <= 132 && n <= ROW_WORDS
    && (forall y, x :: sy <= y < my && 0 <= x < n ==>
          WordAt(cgram, y, x) == Source(fb, RowStart(y - sy, n) + 8 * x))
    && (forall a :: 0 <= a < CGRAM_LEN && !InRect(sy, my, n, a) ==> cgram[a] == was[a])
  }

  /** `cgram` is `was` with the first n words of row y drawn. */
  predicate RowDone(cgram: seq<u16>, was: seq<u16>, fb: seq<u16>, p: nat, y: nat, n: nat) {
    && |cgram| == |was| == CGRAM_LEN && y < 132 && n <= ROW_WORDS
    && (forall x :: 0 <= x < n ==> WordAt(cgram, y, x) == Source(fb, p + 8 * x))
    && (forall a :: 0 <= a < CGRAM_LEN && !(32 * y + 20 - n < a <= 32 * y + 20) ==> cgram[a] == was[a])
  }

  lemma NothingDone(cgram: seq<u16>, fb: seq<u16>, p: nat, y: nat)
    requires |cgram| == CGRAM_LEN && y < 132
    ensures RowDone(cgram, cgram, fb, p, y, 0)
  {
  }

  lemma OneWordMore(cgram: seq<u16>, was: seq<u16>, fb: seq<u16>, p: nat, y: nat, n: nat)
    requires RowDone(cgram, was, fb, p, y, n) && n < ROW_WORDS
    ensures RowDone(cgram[32 * y + 20 - n := Source(fb, p + 8 * n)], was, fb, p, y, n + 1)
  {
    var after := cgram[32 * y + 20 - n := Source(fb, p + 8 * n)];
    forall x | 0 <= x < n + 1
      ensures WordAt(after, y, x) == Source(fb, p + 8 * x)
    {
      if x < n { assert WordAt(after, y, x) == WordAt(cgram, y, x); }
    }
  }

  lemma RowRange(a: nat, y: nat, n: nat)
    requires n <= ROW_WORDS
    ensures 32 * y + 20 - n < a <= 32 * y + 20 <==> a / 32 == y && 20 - n < a % 32 <= 20
  {
  }

  lemma DrawnRow(after: seq<u16>, before: seq<u16>, was: seq<u16>, fb: seq<u16>, sy: nat, y: nat, n: nat)
    requires Drawn(before, was, fb, sy, y, n) && sy <= y < 132
    requires RowDone(after, before, fb, RowStart(y - sy, n), y, n)
    ensures Drawn(after, was, fb, sy, y + 1, n)
  {
    hide Source, RowStart, InRect;
    forall y', x | sy <= y' < y + 1 && 0 <= x < n
      ensures WordAt(after, y', x) == Source(fb, RowStart(y' - sy, n) + 8 * x)
    {
      if y' < y { assert WordAt(after, y', x) == WordAt(before, y', x); }
    }
    RestUnchanged(after, before, was, fb, sy, y, n);
  }

  lemma RestUnchanged(after: seq<u16>, before: seq<u16>, was: seq<u16>, fb: seq<u16>, sy: nat, y: nat, n: nat)
    requires Drawn(before, was, fb, sy, y, n) && sy <= y < 132
    requires RowDone(after, before, fb, RowStart(y - sy, n), y, n)
    ensures forall a :: 0 <= a < CGRAM_LEN && !InRect(sy, y + 1, n, a) ==> after[a] == was[a]
  {
    forall a | 0 <= a < CGRAM_LEN && !InRect(sy, y + 1, n, a)
      ensures after[a] == was[a]
    {
      RowRange(a, y, n);
      assert after[a] == before[a];
    }
  }

  /** What is drawn is what is shown: after the start-up writes and one blit of a 160 x 128
      picture, every one of its pixels is on the screen, in place, in its shade. */
  lemma DrawnIsShown(cgram: seq<u16>, was: seq<u16>, fb: seq<u16>, r: Regs, x: nat, y: nat)
    requires Drawn(cgram, was, fb, 0, 128, 20) && |fb| == 160 * 128
    requires !r.sgs && r.nl == 15 && !r.rev && x < 160 && y < 128
    ensures |Frame(cgram, r)| == CGRAM_WIDTH * 128
    ensures Frame(cgram, r)[CGRAM_WIDTH * y + x] == PALETTE[3 - Shade(fb[160 * y + x])]
  {
    hide Frame, Drawn, Shade;
    var i, j := x / 8, x % 8;
    assert x == 8 * i + j && i < 20;
    ShownAt(cgram, was, fb, r, i, j, y);
  }

  lemma PictureIsShown(d: Device, was: seq<u16>, fb: seq<u16>)
    requires Drawn(d.cgram, was, fb, 0, 128, 20) && |fb| == 160 * 128
    requires !d.regs.sgs && d.regs.nl == 15 && !d.regs.rev
    ensures forall x, y :: 0 <= x < 160 && 0 <= y < 128 ==>
              PixelAt(d, x, y) == Some(PALETTE[3 - Shade(fb[160 * y + x])])
  {
    assert |d.cgram| == CGRAM_LEN;
    forall x, y | 0 <= x < 160 && 0 <= y < 128
      ensures PixelAt(d, x, y) == Some(PALETTE[3 - Shade(fb[160 * y + x])])
    {
      hide Frame, Drawn, Shade;
      DrawnIsShown(d.cgram, was, fb, d.regs, x, y);
    }
  }

  lemma ShownAt(cgram: seq<u16>, was: seq<u16>, fb: seq<u16>, r: Regs, i: nat, j: nat, y: nat)
    requires Drawn(cgram, was, fb, 0, 128, 20) && |fb| == 160 * 128
    requires !r.sgs && r.nl == 15 && !r.rev && i < 20 && j < 8 && y < 128
    ensures |Frame(cgram, r)| == CGRAM_WIDTH * 128
    ensures Frame(cgram, r)[CGRAM_WIDTH * y + 8 * i + j] == PALETTE[3 - Shade(fb[160 * y + 8 * i + j])]
  {
    hide Frame, Drawn, PackWord, Shade, FourTo;
    DrawnWord(cgram, was, fb, i, y);
    MirroredPixel(cgram, r, i, j, y);
    var p := 160 * y + 8 * i;
    ShownPixel(fb[p..p + 8], j);
  }

  lemma DrawnWord(cgram: seq<u16>, was: seq<u16>, fb: seq<u16>, i: nat, y: nat)
    requires Drawn(cgram, was, fb, 0, 128, 20) && |fb| == 160 * 128 && i < 20 && y < 128
    ensures |cgram| == CGRAM_LEN && 160 * y + 8 * i + 8 <= |fb|
    ensures cgram[32 * y + 20 - i] == PackWord(fb[160 * y + 8 * i..160 * y + 8 * i + 8])
  {
    RowOf160(y);
    assert WordAt(cgram, y, i) == Source(fb, RowStart(y - 0, 20) + 8 * i);
  }

  /** Packing and mirrored unpacking cancel out. */
  lemma ShownPixel(pixels: seq<u16>, j: nat)
    requires |pixels| == 8 && j < 8
    ensures PackWord(pixels) / FourTo(7 - j) % 4 == Shade(pixels[j])
  {
    PackedPixel(pixels, j);
  }
}
