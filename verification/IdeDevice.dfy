/** The drive and the controller as the objects the emulator runs: fields updated in place,
    a 512-byte I/O buffer, a seekable block device and two interrupt lines shared by both
    drives.  Every method is proved to take the step of Ide.dfy. */
module IdeDevice {
  import opened Prim
  import opened Ide

  /** The sending side of an interrupt line; clones share it. */
  class Line {
    var level: bool

    constructor ()
      ensures !level
    {
      level := false;
    }

    method Assert()
      modifies this
      ensures level
    {
      level := true;
    }

    method Clear()
      modifies this
      ensures !level
    {
      level := false;
    }
  }

  /** A byte array with a seek cursor. */
  class BlockDev {
    const data: array<u8>
    var pos: nat

    constructor (data: array<u8>)
      ensures this.data == data && pos == 0
    {
      this.data := data;
      pos := 0;
    }

    method Seek(start: nat)
      modifies this
      ensures pos == start
    {
      pos := start;
    }

    /** Fills all of `buf`, or fails when the medium ends first. */
    method ReadExact(buf: array<u8>) returns (ok: bool)
      requires buf != data
      modifies this, buf
      ensures ok <==> old(pos) + buf.Length <= data.Length
      ensures ok ==> pos == old(pos) + buf.Length && buf[..] == data[old(pos)..pos]
    {
      ok := pos + buf.Length <= data.Length;
      if ok {
        forall i | 0 <= i < buf.Length { buf[i] := data[pos + i]; }
        pos := pos + buf.Length;
      }
    }

    method WriteAll(buf: array<u8>) returns (ok: bool)
      requires buf != data
      modifies this, data
      ensures ok <==> old(pos) + buf.Length <= data.Length
      ensures ok ==> pos == old(pos) + buf.Length && data[..] == Splice(old(data[..]), old(pos), buf[..])
    {
      ok := pos + buf.Length <= data.Length;
      if ok {
        forall i | 0 <= i < buf.Length { data[pos + i] := buf[i]; }
        pos := pos + buf.Length;
        assert data[..] == Splice(old(data[..]), old(pos), buf[..]);
      }
    }
  }

  class IoBuf {
    const buf: array<u8>
    var idx: nat

    constructor ()
      ensures fresh(buf) && buf[..] == seq(512, _ => 0) && idx == 0
    {
      buf := new u8[512](_ => 0);
      idx := 0;
      new;
      assert buf[..] == seq(512, _ => 0);
    }

    method Read8() returns (v: Option<u8>)
      modifies this
      ensures v == if old(idx) < buf.Length then Some(buf[old(idx)]) else None
      ensures idx == if v.Some? then old(idx) + 1 else old(idx)
    {
      if idx >= buf.Length { return None; }
      v := Some(buf[idx]);
      idx := idx + 1;
    }

    method Write8(v: u8) returns (ok: bool)
      modifies this, buf
      ensures ok <==> old(idx) < buf.Length
      ensures buf[..] == if ok then old(buf[..])[old(idx) := v] else old(buf[..])
      ensures idx == if ok then old(idx) + 1 else old(idx)
    {
      ok := idx < buf.Length;
      if ok {
        buf[idx] := v;
        idx := idx + 1;
      }
    }

    method NewTransfer()
      modifies this
      ensures idx == 0
    {
      idx := 0;
    }

    predicate IsDoneTransfer()
      reads this
    {
      idx >= 512
    }
  }

  lemma ReadKeepsConfig(d: Drive)
    ensures DataRead8(d).drive.cfg == d.cfg
  {
  }

  class IdeDrive {
    const blockdev: BlockDev
    const irq: Line
    const dmarq: Line
    const identify: seq<u8>
    const iobuf: IoBuf

    var state: DriveState
    var remaining: nat
    var reg: Regs
    var cfg: Config

    ghost const Repr: set<object> := {this, blockdev, blockdev.data, iobuf, iobuf.buf}

    ghost predicate Valid() {
      && iobuf.buf.Length == 512 && |identify| == 512
      && blockdev.data != iobuf.buf && irq != dmarq
    }

    ghost function Abs(): Drive
      reads Repr
    {
      Drive(blockdev.data[..], blockdev.pos, identify, state, remaining,
            iobuf.buf[..], iobuf.idx, reg, cfg)
    }

    /** The outcome `s` of a step: its result, and, while the emulation goes on, its state and
        its effect on the lines. */
    twostate predicate Took(s: Step, r: Res)
      reads Repr, irq, dmarq
    {
      && r == s.res
      && (!Halts(r) ==>
            && Abs() == s.drive
            && irq.level == Level(old(irq.level), s.fx.irq)
            && dmarq.level == Level(old(dmarq.level), s.fx.dmarq))
    }

    constructor (irq: Line, dmarq: Line, blockdev: BlockDev, identify: seq<u8>)
      requires irq != dmarq && |identify| == 512
      ensures Valid() && this.blockdev == blockdev && this.irq == irq && this.dmarq == dmarq
      ensures fresh(Repr - {blockdev, blockdev.data})
      ensures Abs() == Drive(blockdev.data[..], blockdev.pos, identify, Idle, 0, seq(512, _ => 0), 0,
                             Regs(0, 0, 0, 0, 0, 0, 0,
                                  StatusBits(false, true, false, true, false, false, false, false), false, false),
                             Config(false, 0, 0))
    {
      this.blockdev, this.irq, this.dmarq, this.identify := blockdev, irq, dmarq, identify;
      state, remaining := Idle, 0;
      iobuf := new IoBuf();
      reg := Regs(0, 0, 0, 0, 0, 0, 0,
                  StatusBits(false, true, false, true, false, false, false, false), false, false);
      cfg := Config(false, 0, 0);
    }

    method PulseIrq()
      modifies irq
      ensures irq.level
    {
      irq.Clear();
      irq.Assert();
    }

    method SetStatus(s: StatusBits)
      modifies this`reg
      ensures reg == old(reg).(status := s)
      ensures Abs() == old(Abs()).(reg := reg)
    {
      reg := reg.(status := s);
    }

    method FinishRead(v: u8)
      requires Valid()
      modifies this, irq, dmarq
      ensures Took(Ide.FinishRead(old(Abs()), v), Ok(v))
    {
      state := Idle;
      SetStatus(reg.status.(drdy := true, drq := false, bsy := false));
      PulseIrq();
      dmarq.Clear();
    }

    /** One sector from the medium into the buffer. */
    method FillBuffer() returns (ok: bool)
      requires Valid()
      modifies blockdev, iobuf, iobuf.buf
      ensures ok <==> old(Abs()).pos + 512 <= |old(Abs()).disk|
      ensures ok ==> Abs() == old(Abs()).(buf := old(Abs()).disk[old(Abs()).pos..old(Abs()).pos + 512],
                                          pos := old(Abs()).pos + 512, idx := 0)
    {
      ok := blockdev.ReadExact(iobuf.buf);
      if ok { iobuf.NewTransfer(); }
    }

    /** The drive is ready for the data of the next sector; in PIO modes it says so. */
    method SectorReady(ready: DriveState)
      requires Valid()
      modifies this, irq
      ensures Abs() == SetBusyDrq(old(Abs()).(state := ready), false, true)
      ensures irq.level == (old(irq.level) || !IsDma(cfg.transferMode))
    {
      state := ready;
      SetStatus(reg.status.(drq := true, bsy := false));
      if !IsDma(cfg.transferMode) { PulseIrq(); }
    }

    method Busy(waiting: DriveState)
      requires Valid()
      modifies this
      ensures Abs() == SetBusyDrq(old(Abs()).(state := waiting), true, false)
    {
      SetStatus(reg.status.(drq := false, bsy := true));
      state := waiting;
    }

    method LoadNext(v: u8) returns (r: Res)
      requires Valid()
      modifies this, blockdev, iobuf, iobuf.buf, irq
      ensures Took(Ide.LoadNext(old(Abs()), v), r)
    {
      Busy(ReadAsyncLoad);
      var ok := FillBuffer();
      if !ok { return Err(Fatal(IoError)); }
      SectorReady(ReadReady);
      return Ok(v);
    }

    method DataRead8() returns (r: Res)
      requires Valid()
      modifies this, blockdev, iobuf, iobuf.buf, irq, dmarq
      ensures Took(Ide.DataRead8(old(Abs())), r)
    {
      if state != ReadReady { return Err(Fatal(WrongState)); }
      var ret := iobuf.Read8();
      if ret.None? { return Err(Fatal(ReadPastEnd)); }
      r := Ok(ret.value);
      if iobuf.IsDoneTransfer() {
        if remaining == 0 { return Err(Panic); }
        remaining := remaining - 1;
        if remaining == 0 {
          FinishRead(ret.value);
        } else {
          r := LoadNext(ret.value);
        }
      }
    }

    /** The buffer onto the medium. */
    method EmptyBuffer() returns (ok: bool)
      requires Valid()
      modifies blockdev, blockdev.data, iobuf
      ensures ok <==> old(Abs()).pos + 512 <= |old(Abs()).disk|
      ensures ok ==> Abs() == old(Abs()).(disk := Splice(old(Abs()).disk, old(Abs()).pos, old(Abs()).buf),
                                          pos := old(Abs()).pos + 512, idx := 0)
    {
      ok := blockdev.WriteAll(iobuf.buf);
      if ok { iobuf.NewTransfer(); }
    }

    /** A full buffer goes onto the medium and the drive is ready for the next sector. */
    method PutSector() returns (ok: bool)
      requires Valid()
      modifies this, blockdev, blockdev.data, iobuf, irq
      ensures ok <==> old(Abs()).pos + 512 <= |old(Abs()).disk|
      ensures ok ==> Abs() == SetBusyDrq(old(Abs()).(disk := Splice(old(Abs()).disk, old(Abs()).pos, old(Abs()).buf),
                                                     pos := old(Abs()).pos + 512, idx := 0, state := WriteReady),
                                         false, true)
      ensures ok ==> irq.level == (old(irq.level) || !IsDma(cfg.transferMode))
    {
      hide Splice;
      Busy(WriteAsyncFlush);
      ok := EmptyBuffer();
      if ok { SectorReady(WriteReady); }
    }

    method FlushSector() returns (r: Res)
      requires Valid()
      modifies this, blockdev, blockdev.data, iobuf, irq, dmarq
      ensures Took(Ide.FlushSector(old(Abs())), r)
    {
      hide Splice;
      if remaining == 0 { return Err(Panic); }
      var ok := PutSector();
      if !ok { return Err(Fatal(IoError)); }
      CountDown();
      return Ok(0);
    }

    /** One sector of a write is on the medium; the last one ends the transfer. */
    method CountDown()
      requires Valid() && remaining > 0
      modifies this, irq, dmarq
      ensures var d := old(Abs()).(remaining := old(remaining) - 1);
              Abs() == if d.remaining == 0
                       then d.(state := Idle, reg := d.reg.(status := d.reg.status.(drdy := true, drq := false)))
                       else d
      ensures irq.level == (old(irq.level) || remaining == 0)
      ensures dmarq.level == (old(dmarq.level) && remaining != 0)
    {
      remaining := remaining - 1;
      if remaining == 0 {
        state := Idle;
        SetStatus(reg.status.(drdy := true, drq := false));
        PulseIrq();
        dmarq.Clear();
      }
    }

    method DataWrite8(v: u8) returns (r: Res)
      requires Valid()
      modifies Repr, irq, dmarq
      ensures Took(Ide.DataWrite8(old(Abs()), v), r)
    {
      if state != WriteReady { return Err(Fatal(WrongState)); }
      var ok := iobuf.Write8(v);
      if !ok { return Err(Fatal(WritePastEnd)); }
      r := Ok(0);
      if iobuf.IsDoneTransfer() { r := FlushSector(); }
    }

    method StartRead() returns (r: Res)
      requires Valid()
      modifies this, blockdev, iobuf, iobuf.buf, irq
      ensures Took(Ide.StartRead(old(Abs()), QUIET), r)
    {
      var offset := OffsetOf(reg, blockdev.data.Length);
      if offset.None? { return Err(Fatal(BadOffset)); }
      state := ReadAsyncLoad;
      blockdev.Seek(offset.value * 512);
      ghost var d := Abs();
      var ok := FillBuffer();
      if !ok { return Err(Fatal(IoError)); }
      assert Abs() == d.(buf := d.disk[d.pos..d.pos + 512], pos := d.pos + 512, idx := 0);
      remaining := Sectors(reg.sectorCount);
      state := ReadReady;
      SetStatus(reg.status.(bsy := false, dsc := true, drdy := true, drq := true));
      PulseIrq();
      return Ok(0);
    }

    method StartWrite() returns (r: Res)
      requires Valid()
      modifies this, blockdev, iobuf, irq
      ensures Took(Ide.StartWrite(old(Abs()), QUIET), r)
    {
      var offset := OffsetOf(reg, blockdev.data.Length);
      if offset.None? { return Err(Fatal(BadOffset)); }
      state := WriteAsyncFlush;
      blockdev.Seek(offset.value * 512);
      remaining := Sectors(reg.sectorCount);
      iobuf.NewTransfer();
      state := WriteReady;
      SetStatus(reg.status.(bsy := false, dsc := true, drdy := false, drq := true));
      PulseIrq();
      return Ok(0);
    }

    method Identify() returns (r: Res)
      requires Valid()
      modifies this, iobuf, iobuf.buf, irq
      ensures Took(TransferCmd(old(Abs()), 0xec), r)
    {
      forall i | 0 <= i < 512 { iobuf.buf[i] := identify[i]; }
      assert iobuf.buf[..] == identify;
      iobuf.NewTransfer();
      state := ReadReady;
      remaining := 1;
      SetStatus(reg.status.(bsy := false, drq := true));
      PulseIrq();
      return Ok(0);
    }

    /** READ/WRITE MULTIPLE and the DMA commands check their mode and then are plain reads and
        writes. */
    method TransferCommand(cmd: u8) returns (r: Res)
      requires Valid() && IsTransferCmd(cmd)
      modifies Repr, irq, dmarq
      ensures Took(TransferCmd(old(Abs()), cmd), r)
    {
      if cmd == 0xec {
        r := Identify();
      } else if cmd == 0xc4 || cmd == 0xc5 {
        if cfg.multiSect == 0 { return Err(Violation(SevError)); }
        if cfg.multiSect != 1 { return Err(Fatal(MultiSector)); }
        if cmd == 0xc4 { r := StartRead(); } else { r := StartWrite(); }
      } else if cmd == 0xc8 || cmd == 0xc9 || cmd == 0xca || cmd == 0xcb {
        if !IsDma(cfg.transferMode) { return Err(Violation(SevError)); }
        dmarq.Assert();
        if cmd == 0xc8 || cmd == 0xc9 { r := StartRead(); } else { r := StartWrite(); }
      } else if cmd == 0x20 || cmd == 0x21 {
        r := StartRead();
      } else {
        r := StartWrite();
      }
    }

    method ControlCommand(cmd: u8) returns (r: Res)
      requires Valid()
      modifies this, irq
      ensures Took(ControlCmd(old(Abs()), cmd), r)
    {
      r := Ok(0);
      if cmd == 0xe0 || cmd == 0x94 {
        SetStatus(reg.status.(bsy := false));
      } else if cmd == 0xc6 {
        cfg := cfg.(multiSect := reg.sectorCount);
        if cfg.multiSect > 1 { return Err(Fatal(MultiSector)); }
        SetStatus(reg.status.(bsy := false));
      } else if cmd == 0xef {
        r := Features();
      } else if cmd == 0xe7 {
        SetStatus(reg.status.(bsy := false, drdy := true, drq := false));
      } else if cmd == 0x99 || cmd == 0xe6 {
        SetStatus(reg.status.(bsy := false));
        PulseIrq();
      } else if cmd == 0xf8 {
        reg := AddressRegs(reg, MaxLba(blockdev.data.Length));
        SetStatus(reg.status.(bsy := false, drdy := true, dsc := true, drq := false));
        PulseIrq();
      } else if cmd == 0x10 || cmd == 0xf9 || cmd == 0x91 {
        SetStatus(reg.status.(bsy := false, drdy := true, dsc := true, drq := false));
        PulseIrq();
      } else {
        SetStatus(reg.status.(bsy := false, err := true));
        reg := reg.(error := 1);
        return Err(Violation(SevWarn));
      }
    }

    method Features() returns (r: Res)
      requires Valid()
      modifies this
      ensures Took(SetFeatures(old(Abs())), r)
    {
      if reg.feature == 0x01 {
        cfg := cfg.(eightbit := true);
      } else if reg.feature == 0x03 {
        cfg := cfg.(transferMode := reg.sectorCount);
      } else if reg.feature == 0x81 {
        cfg := cfg.(eightbit := false);
      } else {
        return Err(Fatal(BadFeature));
      }
      SetStatus(reg.status.(bsy := false));
      return Ok(0);
    }

    method ExecCmd(cmd: u8) returns (r: Res)
      requires Valid()
      modifies Repr, irq, dmarq
      ensures Took(Ide.ExecCmd(old(Abs()), cmd), r)
    {
      if reg.status.bsy { return Err(Violation(SevWarn)); }
      SetStatus(reg.status.(bsy := true, err := false));
      reg := reg.(error := 0);
      if IsTransferCmd(cmd) { r := TransferCommand(cmd); } else { r := ControlCommand(cmd); }
    }

    method ReadReg(r: Reg) returns (v: Res)
      requires Valid()
      modifies this, blockdev, iobuf, iobuf.buf, irq, dmarq
      ensures Took(RegRead(old(Abs()), r), v)
    {
      match r
      case Data => v := DataRead8();
      case Error | Features => v := Ok(reg.error);
      case SectorCount => v := Ok(reg.sectorCount);
      case SectorNo | Lba0 => v := Ok(reg.lba0);
      case CylinderLo | Lba1 => v := Ok(reg.lba1);
      case CylinderHi | Lba2 => v := Ok(reg.lba2);
      case DeviceHead | Lba3 => v := Ok(reg.lba3);
      case Status | Command =>
        irq.Clear();
        v := Ok(StatusByte(reg.status));
      case AltStatus | DevControl => v := Ok(StatusByte(reg.status));
      case DataLatch => v := Err(Unimplemented);
    }

    method WriteReg(r: Reg, b: u8) returns (v: Res)
      requires Valid()
      modifies Repr, irq, dmarq
      ensures Took(RegWrite(old(Abs()), r, b), v)
    {
      if r == Data {
        v := DataWrite8(b);
      } else if r == Command || r == Status {
        v := ExecCmd(b);
      } else if r == DataLatch {
        v := Err(Unimplemented);
      } else {
        reg := StoreReg(reg, r, b);
        v := Ok(0);
      }
    }

    method ReadData16() returns (r: Res)
      requires Valid()
      modifies this, blockdev, iobuf, iobuf.buf, irq, dmarq
      ensures Took(DataRead16(old(Abs())), r)
    {
      hide Ide.DataRead8;
      ReadKeepsConfig(Abs());
      r := DataRead8();
      if r.Err? || cfg.eightbit { return; }
      var hi := DataRead8();
      r := if hi.Err? then hi else Ok(r.value % 256 + hi.value % 256 * 256);
    }

    method WriteData16(w: u16) returns (r: Res)
      requires Valid()
      modifies Repr, irq, dmarq
      ensures Took(DataWrite16(old(Abs()), w), r)
    {
      if cfg.eightbit {
        if w > 0xff { return Err(Violation(SevError)); }
        r := DataWrite8(w);
      } else {
        r := DataWrite8(w % 256);
        if r.Err? { return; }
        r := DataWrite8(w / 256);
      }
    }
  }

  // ---------------------------------------------------------------- controller

  /** A 16-bit access to any register but Data is an 8-bit one. */
  lemma NarrowAccess(c: Ctl, r: Reg, w: u16)
    requires r != Data
    ensures Perform(c, Access.Read16(r)) == Perform(c, Access.Read8(r))
    ensures Perform(c, Access.Write16(r, w)) == Perform(c, Access.Write8(r, w % 256))
  {
    hide RegRead, RegWrite, Deliver;
  }

  class IdeController {
    const irq: Line
    const dmarq: Line
    const ide0: IdeDrive?
    const ide1: IdeDrive?
    var second: bool

    ghost const Repr: set<object> :=
      {this, irq, dmarq} + (if ide0 == null then {} else ide0.Repr) + (if ide1 == null then {} else ide1.Repr)

    ghost predicate Valid() {
      && irq != dmarq
      && (ide0 != null ==> ide0.Valid() && ide0.irq == irq && ide0.dmarq == dmarq)
      && (ide1 != null ==> ide1.Valid() && ide1.irq == irq && ide1.dmarq == dmarq)
      && (ide0 != null && ide1 != null ==> ide0.Repr !! ide1.Repr)
    }

    ghost function Abs(): Ctl
      reads Repr
    {
      Ctl(second, if ide0 == null then None else Some(ide0.Abs()),
          if ide1 == null then None else Some(ide1.Abs()), irq.level, dmarq.level)
    }

    twostate predicate Took(s: (Ctl, Res), r: Res)
      reads Repr
    {
      r == s.1 && (!Halts(r) ==> Abs() == s.0)
    }

    constructor (irq: Line, dmarq: Line, ide0: IdeDrive?, ide1: IdeDrive?)
      requires irq != dmarq
      requires ide0 != null ==> ide0.Valid() && ide0.irq == irq && ide0.dmarq == dmarq
      requires ide1 != null ==> ide1.Valid() && ide1.irq == irq && ide1.dmarq == dmarq
      requires ide0 != null && ide1 != null ==> ide0.Repr !! ide1.Repr
      ensures Valid() && this.irq == irq && this.dmarq == dmarq && this.ide0 == ide0 && this.ide1 == ide1
      ensures !second
    {
      this.irq, this.dmarq, this.ide0, this.ide1 := irq, dmarq, ide0, ide1;
      second := false;
    }

    function Selected(): IdeDrive?
      reads this
    {
      if second then ide1 else ide0
    }

    method Read8(r: Reg) returns (v: Res)
      requires Valid()
      modifies Repr
      ensures Took(Perform(old(Abs()), Access.Read8(r)), v)
    {
      hide RegRead, Deliver;
      v := ReadSelected(r);
    }

    method ReadSelected(r: Reg) returns (v: Res)
      requires Valid()
      modifies Repr
      ensures match DriveOf(old(Abs()), old(second))
              case None => v == Err(Violation(SevInfo)) && Abs() == old(Abs())
              case Some(d) => Took(Deliver(old(Abs()), RegRead(d, r)), v)
    {
      hide RegRead;
      var ide := Selected();
      if ide == null { return Err(Violation(SevInfo)); }
      ghost var c, d := Abs(), ide.Abs();
      v := ide.ReadReg(r);
      assert !Halts(v) ==> Abs() == Deliver(c, RegRead(d, r)).0;
    }

    method Write8(r: Reg, b: u8) returns (v: Res)
      requires Valid()
      modifies Repr
      ensures Took(Perform(old(Abs()), Access.Write8(r, b)), v)
    {
      hide RegWrite, Deliver;
      if IsHead(r) { second := Bit(b, 4); }
      assert Abs() == old(Abs()).(second := second);
      v := WriteSelected(r, b);
    }

    /** The write itself, once its drive is selected. */
    method WriteSelected(r: Reg, b: u8) returns (v: Res)
      requires Valid()
      modifies Repr
      ensures match DriveOf(old(Abs()), old(second))
              case None => v == Err(Violation(SevInfo)) && Abs() == old(Abs())
              case Some(d) => Took(Deliver(old(Abs()), RegWrite(d, r, b)), v)
    {
      hide RegWrite;
      var ide := Selected();
      if ide == null { return Err(Violation(SevInfo)); }
      ghost var c, d := Abs(), ide.Abs();
      v := ide.WriteReg(r, b);
      assert !Halts(v) ==> Abs() == Deliver(c, RegWrite(d, r, b)).0;
    }

    method Read16(r: Reg) returns (v: Res)
      requires Valid()
      modifies Repr
      ensures Took(Perform(old(Abs()), Access.Read16(r)), v)
    {
      hide DataRead16, Deliver;
      if r != Data {
        hide Perform;
        NarrowAccess(Abs(), r, 0);
        v := Read8(r);
      } else {
        v := ReadWord();
      }
    }

    method ReadWord() returns (v: Res)
      requires Valid()
      modifies Repr
      ensures match DriveOf(old(Abs()), old(second))
              case None => v == Err(Violation(SevInfo)) && Abs() == old(Abs())
              case Some(d) => Took(Deliver(old(Abs()), DataRead16(d)), v)
    {
      hide DataRead16;
      var ide := Selected();
      if ide == null { return Err(Violation(SevInfo)); }
      ghost var c, d := Abs(), ide.Abs();
      v := ide.ReadData16();
      assert !Halts(v) ==> Abs() == Deliver(c, DataRead16(d)).0;
    }

    method Write16(r: Reg, w: u16) returns (v: Res)
      requires Valid()
      modifies Repr
      ensures Took(Perform(old(Abs()), Access.Write16(r, w)), v)
    {
      hide DataWrite16, Deliver;
      if r != Data {
        hide Perform;
        NarrowAccess(Abs(), r, w);
        v := Write8(r, w % 256);
      } else {
        v := WriteWord(w);
      }
    }

    method WriteWord(w: u16) returns (v: Res)
      requires Valid()
      modifies Repr
      ensures match DriveOf(old(Abs()), old(second))
              case None => v == Err(Violation(SevInfo)) && Abs() == old(Abs())
              case Some(d) => Took(Deliver(old(Abs()), DataWrite16(d, w)), v)
    {
      hide DataWrite16;
      var ide := Selected();
      if ide == null { return Err(Violation(SevInfo)); }
      ghost var c, d := Abs(), ide.Abs();
      v := ide.WriteData16(w);
      assert !Halts(v) ==> Abs() == Deliver(c, DataWrite16(d, w)).0;
    }
  }
}
