/** The register file as a guest sees it: what reads back what, the bits of the status, the drive a
    write selects, and the commands that configure the drive. */
module IdeRegisters {
  import opened Prim
  import opened Arith
  import opened Ide
  import opened IdeTheorems
  import opened IdeRuns
  import opened IdeLines

  // ---------------------------------------------------------------- stored registers

  /** The registers that keep a byte, each under the names it has. */
  const STORES: seq<set<Reg>> :=
    [{SectorCount}, {SectorNo, Lba0}, {CylinderLo, Lba1}, {CylinderHi, Lba2}, {DeviceHead, Lba3}]

  predicate Stored(r: Reg) { exists i :: 0 <= i < |STORES| && r in STORES[i] }

  predicate SameRegister(r: Reg, q: Reg) { exists i :: 0 <= i < |STORES| && r in STORES[i] && q in STORES[i] }

  /** The byte kept under the names STORES[i]. */
  function Kept(r: Regs, i: nat): u8
    requires i < |STORES|
  {
    if i == 0 then r.sectorCount else if i == 1 then r.lba0 else if i == 2 then r.lba1
    else if i == 3 then r.lba2 else r.lba3
  }

  lemma ReadKept(d: Drive, q: Reg, i: nat)
    requires i < |STORES| && q in STORES[i]
    ensures DriveStep(d, Read8(q)).res == Ok(Kept(d.reg, i))
  {
  }

  lemma StoreKept(d: Drive, r: Reg, b: u8, i: nat, j: nat)
    requires i < |STORES| && j < |STORES| && r in STORES[i]
    ensures DriveStep(d, Write8(r, b)).res == Ok(0)
    ensures Kept(DriveStep(d, Write8(r, b)).drive.reg, j) == if i == j then b else Kept(d.reg, j)
  {
    hide StoreReg, Kept;
    KeptStored(d.reg, r, b, i, j);
    StoreStep(d, r, b);
  }

  lemma KeptStored(regs: Regs, r: Reg, b: u8, i: nat, j: nat)
    requires i < |STORES| && j < |STORES| && r in STORES[i]
    ensures Stores(r) && Kept(StoreReg(regs, r, b), j) == if i == j then b else Kept(regs, j)
  {
  }

  lemma OneName(r: Reg, i: nat, j: nat)
    requires i < |STORES| && j < |STORES| && r in STORES[i] && r in STORES[j]
    ensures i == j
  {
  }

  /** What is written to a register is what it reads, under either name, until it is written again; no
      other register is touched. */
  lemma ReadsBack(d: Drive, r: Reg, b: u8, q: Reg)
    requires Stored(r) && Stored(q)
    ensures var s := DriveStep(d, Write8(r, b));
            && s.res == Ok(0)
            && DriveStep(s.drive, Read8(q)).res == (if SameRegister(r, q) then Ok(b) else DriveStep(d, Read8(q)).res)
  {
    hide DriveStep, Kept;
    var i :| 0 <= i < |STORES| && r in STORES[i];
    var j :| 0 <= j < |STORES| && q in STORES[j];
    StoreKept(d, r, b, i, j);
    ReadKept(d, q, j);
    ReadKept(DriveStep(d, Write8(r, b)).drive, q, j);
    if k :| 0 <= k < |STORES| && r in STORES[k] && q in STORES[k] {
      OneName(r, i, k);
      OneName(q, j, k);
    }
  }

  /** A 16-bit access to such a register is an 8-bit one with the low byte. */
  lemma WideStore(d: Drive, r: Reg, w: u16)
    requires Stored(r)
    ensures DriveStep(d, Write16(r, w)) == DriveStep(d, Write8(r, w % 256))
    ensures DriveStep(d, Read16(r)) == DriveStep(d, Read8(r))
  {
  }

  /** Bit 4 of the last byte written to the device/head register selects the drive. */
  lemma HeadSelects(c: Ctl, r: Reg, b: u8)
    requires r == DeviceHead || r == Lba3
    ensures Perform(c, Write8(r, b)).0.second == (b / 16 % 2 == 1)
    ensures forall a: Access :: a.Read8? || a.Read16? || (a.reg != DeviceHead && a.reg != Lba3) ==>
              Perform(c, a).0.second == c.second
  {
  }

  // ---------------------------------------------------------------- status

  /** BSY, DRDY, DF, DSC, DRQ, CORR, IDX and ERR are bits 7 to 0. */
  lemma StatusRead(d: Drive, r: Reg)
    requires IsStatus(r)
    ensures var res := DriveStep(d, Read8(r)).res;
            && res.Ok? && res.value < 256
            && var s := d.reg.status;
               && Bit(res.value, 7) == s.bsy && Bit(res.value, 6) == s.drdy && Bit(res.value, 5) == s.df
               && Bit(res.value, 4) == s.dsc && Bit(res.value, 3) == s.drq && Bit(res.value, 2) == s.corr
               && Bit(res.value, 1) == s.idx && Bit(res.value, 0) == s.err
  {
    hide Bit, StatusByte;
    assert DriveStep(d, Read8(r)).res == Ok(StatusByte(d.reg.status));
    StatusBits(d.reg.status);
  }

  lemma StatusBits(s: StatusBits)
    ensures var b := StatusByte(s);
            && Bit(b, 7) == s.bsy && Bit(b, 6) == s.drdy && Bit(b, 5) == s.df && Bit(b, 4) == s.dsc
            && Bit(b, 3) == s.drq && Bit(b, 2) == s.corr && Bit(b, 1) == s.idx && Bit(b, 0) == s.err
  {
    hide Bit;
    ByteBits(StatusByte(s), Flag(s.bsy), Flag(s.drdy), Flag(s.df), Flag(s.dsc), Flag(s.drq), Flag(s.corr), Flag(s.idx),
             Flag(s.err));
  }

  lemma ByteBits(v: u8, b7: nat, b6: nat, b5: nat, b4: nat, b3: nat, b2: nat, b1: nat, b0: nat)
    requires b7 < 2 && b6 < 2 && b5 < 2 && b4 < 2 && b3 < 2 && b2 < 2 && b1 < 2 && b0 < 2
    requires v == 128 * b7 + 64 * b6 + 32 * b5 + 16 * b4 + 8 * b3 + 4 * b2 + 2 * b1 + b0
    ensures Bit(v, 7) == (b7 == 1) && Bit(v, 6) == (b6 == 1) && Bit(v, 5) == (b5 == 1) && Bit(v, 4) == (b4 == 1)
    ensures Bit(v, 3) == (b3 == 1) && Bit(v, 2) == (b2 == 1) && Bit(v, 1) == (b1 == 1) && Bit(v, 0) == (b0 == 1)
  {
    OneBit(v, b7, 0, 64 * b6 + 32 * b5 + 16 * b4 + 8 * b3 + 4 * b2 + 2 * b1 + b0, 7);
    OneBit(v, b6, b7, 32 * b5 + 16 * b4 + 8 * b3 + 4 * b2 + 2 * b1 + b0, 6);
    OneBit(v, b5, 2 * b7 + b6, 16 * b4 + 8 * b3 + 4 * b2 + 2 * b1 + b0, 5);
    OneBit(v, b4, 4 * b7 + 2 * b6 + b5, 8 * b3 + 4 * b2 + 2 * b1 + b0, 4);
    OneBit(v, b3, 8 * b7 + 4 * b6 + 2 * b5 + b4, 4 * b2 + 2 * b1 + b0, 3);
    OneBit(v, b2, 16 * b7 + 8 * b6 + 4 * b5 + 2 * b4 + b3, 2 * b1 + b0, 2);
    OneBit(v, b1, 32 * b7 + 16 * b6 + 8 * b5 + 4 * b4 + 2 * b3 + b2, b0, 1);
    OneBit(v, b0, 64 * b7 + 32 * b6 + 16 * b5 + 8 * b4 + 4 * b3 + 2 * b2 + b1, 0, 0);
  }

  /** Bit i, with `high` above it and `low` below. */
  lemma OneBit(v: u8, b: nat, high: nat, low: nat, i: nat)
    requires i < 8 && b < 2 && low < BitWeight(i) && v == (2 * high + b) * BitWeight(i) + low
    ensures Bit(v, i) == (b == 1)
  {
    var w := BitWeight(i);
    hide BitWeight;
    Quotient(2 * high + b, low, w);
    assert (2 * high + b) % 2 == b;
  }

  /** The commands the drive knows. */
  predicate Known(cmd: u8) {
    || DataCommand(cmd) || ReportingCommand(cmd)
    || cmd == 0xe0 || cmd == 0x94 || cmd == 0xc6 || cmd == 0xef || cmd == 0xe7
  }

  /** A command that does not end the emulation leaves the drive ready for the next one; an unknown one
      is reported in the status and the error register, and a known one clears both. */
  lemma ErrorsReported(d: Drive, cmd: u8)
    requires Inv(d) && !Halts(ExecCmd(d, cmd).res)
    ensures var s := ExecCmd(d, cmd);
            && (s.res.Ok? <==> Known(cmd)) && !s.drive.reg.status.bsy
            && s.drive.reg.status.err == !(Known(cmd))
            && DriveStep(s.drive, Read8(Error)).res == Ok(if Known(cmd) then 0 else 1)
  {
    hide TransferCmd, ControlCmd;
    if IsTransferCmd(cmd) { TransferErrors(Accepted(d), cmd); } else { ControlErrors(Accepted(d), cmd); }
  }

  lemma TransferErrors(d: Drive, cmd: u8)
    requires IsTransferCmd(cmd) && !Halts(TransferCmd(d, cmd).res)
    ensures var s := TransferCmd(d, cmd);
            Known(cmd) && s.res == Ok(0) && !s.drive.reg.status.bsy
            && s.drive.reg.status.err == d.reg.status.err && s.drive.reg.error == d.reg.error
  {
    hide OffsetOf, IsDma;
  }

  /** What a control command makes of status and error. */
  predicate Reported(d: Drive, cmd: u8, s: Step) {
    && (s.res.Ok? <==> Known(cmd)) && !s.drive.reg.status.bsy
    && s.drive.reg.status.err == (d.reg.status.err || !Known(cmd))
    && s.drive.reg.error == (if Known(cmd) then d.reg.error else 1)
  }

  lemma ControlErrors(d: Drive, cmd: u8)
    requires !IsTransferCmd(cmd) && !Halts(ControlCmd(d, cmd).res)
    ensures Reported(d, cmd, ControlCmd(d, cmd))
  {
    hide SetFeatures, NativeMax, Reported, NotBusy, Ready;
    if cmd == 0xef {
      FeatureErrors(d);
    } else if cmd == 0xf8 {
      MaxErrors(d);
    } else {
      QuietErrors(d, cmd);
      MultipleErrors(d);
      if !Known(cmd) { UnknownErrors(d, cmd); }
    }
  }

  lemma QuietErrors(d: Drive, cmd: u8)
    ensures Known(cmd) ==>
              && Reported(d, cmd, Step(NotBusy(d), Ok(0), QUIET)) && Reported(d, cmd, Step(NotBusy(d), Ok(0), PULSE))
              && Reported(d, cmd, Step(Ready(d), Ok(0), PULSE))
              && Reported(d, cmd, Step(d.(reg := d.reg.(status := d.reg.status.(bsy := false, drdy := true, drq := false))),
                                       Ok(0), QUIET))
  {
  }

  lemma MultipleErrors(d: Drive)
    ensures Reported(d, 0xc6, Step(NotBusy(d.(cfg := d.cfg.(multiSect := d.reg.sectorCount))), Ok(0), QUIET))
  {
  }

  lemma UnknownErrors(d: Drive, cmd: u8)
    requires !Known(cmd)
    ensures Reported(d, cmd, Step(d.(reg := d.reg.(status := d.reg.status.(bsy := false, err := true), error := 1)),
                                  Err(Violation(SevWarn)), QUIET))
  {
  }

  lemma FeatureErrors(d: Drive)
    requires !Halts(SetFeatures(d).res)
    ensures Reported(d, 0xef, SetFeatures(d))
  {
  }

  lemma MaxErrors(d: Drive)
    ensures Reported(d, 0xf8, NativeMax(d))
  {
    hide MaxLba;
  }

  /** What moving data does to the registers: a finished sector asks for the next one, the last one
      leaves the drive ready; nothing else changes. */
  predicate DataStatus(d: Drive, d': Drive) {
    var s := d.reg.status;
    d'.reg == d.reg.(status := if SectorsLeft(d') == 0 then s.(drdy := true, drq := false)
                               else if SectorsLeft(d') < SectorsLeft(d) then s.(drq := true)
                               else s)
  }

  lemma StatusOfRead(d: Drive)
    requires Inv(d) && !Halts(DataRead8(d).res)
    ensures DataStatus(d, DataRead8(d).drive)
  {
  }

  lemma StatusOfWrite(d: Drive, b: u8)
    requires Inv(d) && !Halts(DataWrite8(d, b).res)
    ensures DataStatus(d, DataWrite8(d, b).drive)
  {
    hide FlushSector;
    if d.idx + 1 == 512 { StatusOfFlush(d.(buf := d.buf[d.idx := b], idx := d.idx + 1)); }
  }

  lemma StatusOfFlush(d: Drive)
    requires !d.reg.status.bsy && d.state == WriteReady && !Halts(FlushSector(d).res)
    ensures DataStatus(d, FlushSector(d).drive)
  {
    hide Splice, DataStatus;
    var d', s := FlushSector(d).drive, d.reg.status;
    if d.remaining == 1 {
      assert d'.reg == d.reg.(status := s.(drdy := true, drq := false)) && d'.state == Idle;
    } else {
      assert d'.reg == d.reg.(status := s.(drq := true)) && d'.state == WriteReady && d'.remaining == d.remaining - 1;
    }
    StatusAfter(d, d');
  }

  lemma StatusAfter(d: Drive, d': Drive)
    requires d.state == WriteReady && d.remaining > 0
    requires var s := d.reg.status;
             if d.remaining == 1 then d'.state == Idle && d'.reg == d.reg.(status := s.(drdy := true, drq := false))
             else d'.state == WriteReady && d'.remaining == d.remaining - 1 && d'.reg == d.reg.(status := s.(drq := true))
    ensures DataStatus(d, d')
  {
  }

  lemma StatusTwice(d: Drive, m: Drive, d': Drive)
    requires DataStatus(d, m) && DataStatus(m, d')
    requires SectorsLeft(d') <= SectorsLeft(m) <= SectorsLeft(d) && SectorsLeft(m) > 0
    ensures DataStatus(d, d')
  {
  }

  lemma DataAccessStatus(d: Drive, a: Access)
    requires Inv(d) && a.reg == Data && !Halts(DriveStep(d, a).res)
    ensures DataStatus(d, DriveStep(d, a).drive)
  {
    hide DataRead8, DataWrite8, Inv, DataStatus, SectorsLeft, JoinRead;
    match a
    case Read8(_) => StatusOfRead(d);
    case Read16(_) =>
      ReadByteErrs(d);
      StatusOfRead(d);
      ReadByteRight(d);
      if !d.cfg.eightbit {
        var m := DataRead8(d).drive;
        ReadByteErrs(m);
        JoinedRead(DataRead8(d), DataRead8(m));
        StatusOfRead(m);
        ReadByteRight(m);
        StatusTwice(d, m, DataRead8(m).drive);
      }
    case Write8(_, b) => StatusOfWrite(d, b);
    case Write16(_, w) =>
      if d.cfg.eightbit {
        StatusOfWrite(d, w);
      } else {
        WriteByteErrs(d, w % 256);
        StatusOfWrite(d, w % 256);
        WriteByteRight(d, w % 256);
        var m := DataWrite8(d, w % 256).drive;
        StatusOfWrite(m, w / 256);
        WriteByteRight(m, w / 256);
        StatusTwice(d, m, DataWrite8(m, w / 256).drive);
      }
  }

  lemma JoinedRead(s1: Step, s2: Step)
    requires s1.res.Ok?
    ensures JoinRead(s1, s2).drive == s2.drive && (Halts(JoinRead(s1, s2).res) <==> Halts(s2.res))
  {
  }

  /** After a read or write command: the data can be moved at once, and a drive about to be written to is
      not ready for another command. */
  lemma OpenedStatus(d: Drive, cmd: u8, lba: nat, n: nat)
    requires Inv(d) && AddressedAt(d.reg, lba, n) && 512 * (lba + n) <= |d.disk|
    requires ReadCommand(cmd, d.cfg) || WriteCommand(cmd, d.cfg)
    ensures ExecCmd(d, cmd).drive.reg ==
            d.reg.(error := 0, status := d.reg.status.(bsy := false, err := false, dsc := true, drq := true,
                                                       drdy := ReadCommand(cmd, d.cfg)))
  {
    hide StartRead, StartWrite, Inv, AddressedAt;
    NotBusyYet(d);
    AcceptedAddress(d, lba, n);
    StartStatus(Accepted(d), QUIET, lba, n);
    StartStatus(Accepted(d), Effect(None, Some(true)), lba, n);
  }

  lemma AcceptedAddress(d: Drive, lba: nat, n: nat)
    requires Inv(d) && AddressedAt(d.reg, lba, n)
    ensures AddressedAt(Accepted(d).reg, lba, n)
  {
  }

  lemma StartStatus(d: Drive, fx: Effect, lba: nat, n: nat)
    requires AddressedAt(d.reg, lba, n) && 512 * (lba + n) <= |d.disk|
    ensures var s := d.reg.status.(bsy := false, dsc := true, drq := true);
            && StartRead(d, fx).drive.reg == d.reg.(status := s.(drdy := true))
            && StartWrite(d, fx).drive.reg == d.reg.(status := s.(drdy := false))
  {
    OffsetIffLba(d);
    assert n >= 1;
  }

  /** What a command without data leaves in the status: recalibrate, initialise parameters and the two
      maximum commands say ready, seek complete and no data; flush cache says ready and no data; the others
      leave these bits alone. */
  function SettledStatus(s: StatusBits, cmd: u8): StatusBits {
    var done := s.(bsy := false, err := !Known(cmd));
    if cmd == 0x10 || cmd == 0x91 || cmd == 0xf8 || cmd == 0xf9 then done.(drdy := true, dsc := true, drq := false)
    else if cmd == 0xe7 then done.(drdy := true, drq := false)
    else done
  }

  lemma ControlStatus(d: Drive, cmd: u8)
    requires Inv(d) && !DataCommand(cmd) && !Halts(ExecCmd(d, cmd).res)
    ensures ExecCmd(d, cmd).drive.reg.status == SettledStatus(d.reg.status, cmd)
  {
    hide TransferCmd, ControlCmd, SettledStatus;
    NotBusyYet(d);
    Settled(Accepted(d), cmd);
    SameSettled(d.reg.status, cmd);
  }

  lemma SameSettled(s: StatusBits, cmd: u8)
    ensures SettledStatus(s.(bsy := true, err := false), cmd) == SettledStatus(s, cmd)
  {
  }

  lemma Settled(d: Drive, cmd: u8)
    requires !DataCommand(cmd) && !d.reg.status.err && !Halts(ControlCmd(d, cmd).res)
    ensures ControlCmd(d, cmd).drive.reg.status == SettledStatus(d.reg.status, cmd)
  {
    hide ControlCmd, SettledStatus, Known;
    if cmd == 0xef || cmd == 0xf8 {
      SettledLong(d, cmd);
    } else if cmd == 0x10 || cmd == 0x91 || cmd == 0xf9 || cmd == 0xe7 {
      SettledReady(d, cmd);
    } else if Known(cmd) {
      SettledQuiet(d, cmd);
    } else {
      SettledUnknown(d, cmd);
    }
  }

  lemma SettledLong(d: Drive, cmd: u8)
    requires (cmd == 0xef || cmd == 0xf8) && !d.reg.status.err && !Halts(ControlCmd(d, cmd).res)
    ensures ControlCmd(d, cmd).drive.reg.status == SettledStatus(d.reg.status, cmd)
  {
    hide SetFeatures, NativeMax;
    if cmd == 0xef { FeatureStatus(d); } else { MaxStatus(d); }
  }

  lemma SettledReady(d: Drive, cmd: u8)
    requires (cmd == 0x10 || cmd == 0x91 || cmd == 0xf9 || cmd == 0xe7) && !d.reg.status.err
    ensures ControlCmd(d, cmd).drive.reg.status == SettledStatus(d.reg.status, cmd)
  {
  }

  lemma SettledQuiet(d: Drive, cmd: u8)
    requires Known(cmd) && !DataCommand(cmd) && cmd != 0xef && cmd != 0xf8
    requires !(cmd == 0x10 || cmd == 0x91 || cmd == 0xf9 || cmd == 0xe7) && !d.reg.status.err
    requires !Halts(ControlCmd(d, cmd).res)
    ensures ControlCmd(d, cmd).drive.reg.status == SettledStatus(d.reg.status, cmd)
  {
    hide SetFeatures, NativeMax, Ready;
  }

  lemma SettledUnknown(d: Drive, cmd: u8)
    requires !Known(cmd)
    ensures ControlCmd(d, cmd).drive.reg.status == SettledStatus(d.reg.status, cmd)
  {
    hide SetFeatures, NativeMax, NotBusy, Ready;
  }

  lemma FeatureStatus(d: Drive)
    requires !Halts(SetFeatures(d).res)
    ensures SetFeatures(d).drive.reg.status == d.reg.status.(bsy := false)
  {
  }

  lemma MaxStatus(d: Drive)
    ensures NativeMax(d).drive.reg.status == d.reg.status.(bsy := false, drdy := true, dsc := true, drq := false)
  {
    hide MaxLba;
  }

  /** The device control register keeps the software reset and the interrupt disable bit. */
  lemma ControlStored(d: Drive, r: Reg, b: u8)
    requires r == DevControl || r == AltStatus
    ensures DriveStep(d, Write8(r, b)) == Step(d.(reg := d.reg.(srst := b / 4 % 2 == 1, nein := b / 2 % 2 == 1)), Ok(0), QUIET)
  {
  }

  // ---------------------------------------------------------------- configuration

  /** SET FEATURES: sub-commands 0x01 and 0x81 switch 8-bit transfers on and off, 0x03 takes the transfer
      mode from the sector count register, and no other is there. */
  lemma FeaturesConfigure(d: Drive, feature: u8, count: u8)
    requires Inv(d)
    ensures var r := DriveRun(d, [Write8(Features, feature), Write8(SectorCount, count), Write8(Command, 0xef)]);
            && (r.halted <==> feature != 0x01 && feature != 0x03 && feature != 0x81)
            && (!r.halted ==>
                  && r.drive.cfg.eightbit == (feature == 0x01 || (feature != 0x81 && d.cfg.eightbit))
                  && r.drive.cfg.transferMode == (if feature == 0x03 then count else d.cfg.transferMode)
                  && r.drive.cfg.multiSect == d.cfg.multiSect && r.drive.disk == d.disk)
  {
    var d1 := d.(reg := d.reg.(feature := feature, sectorCount := count));
    RunStores(d, Features, feature, SectorCount, count, 0xef);
    assert StoreReg(StoreReg(d.reg, Features, feature), SectorCount, count) == d1.reg;
    FeatureStep(d1);
  }

  lemma FeatureStep(d: Drive)
    requires Inv(d)
    ensures var s := ExecCmd(d, 0xef);
            && (Halts(s.res) <==> d.reg.feature != 0x01 && d.reg.feature != 0x03 && d.reg.feature != 0x81)
            && (!Halts(s.res) ==>
                  && s.drive.disk == d.disk
                  && s.drive.cfg == Config(if d.reg.feature == 0x01 then true else if d.reg.feature == 0x81 then false
                                           else d.cfg.eightbit,
                                           d.cfg.multiSect,
                                           if d.reg.feature == 0x03 then d.reg.sectorCount else d.cfg.transferMode))
  {
  }

  /** Two registers and a command. */
  lemma RunStores(d: Drive, r: Reg, b: u8, q: Reg, b': u8, cmd: u8)
    requires Stores(r) && Stores(q)
    ensures var d' := d.(reg := StoreReg(StoreReg(d.reg, r, b), q, b'));
            var run := DriveRun(d, [Write8(r, b), Write8(q, b'), Write8(Command, cmd)]);
            run.halted == Halts(ExecCmd(d', cmd).res) && run.drive == ExecCmd(d', cmd).drive
  {
    hide ExecCmd, StoreReg, DriveRun;
    var d1 := d.(reg := StoreReg(d.reg, r, b));
    StoreStep(d, r, b);
    StoreStep(d1, q, b');
    var d2 := d1.(reg := StoreReg(d1.reg, q, b'));
    assert DriveStep(d2, Write8(Command, cmd)) == ExecCmd(d2, cmd);
    hide DriveStep;
    RunThree(d, Write8(r, b), Write8(q, b'), Write8(Command, cmd));
  }

  lemma StoreStep(d: Drive, r: Reg, b: u8)
    requires Stores(r)
    ensures DriveStep(d, Write8(r, b)) == Step(d.(reg := StoreReg(d.reg, r, b)), Ok(0), QUIET)
  {
  }

  lemma RunThree(d: Drive, x: Access, y: Access, z: Access)
    requires !Halts(DriveStep(d, x).res) && !Halts(DriveStep(DriveStep(d, x).drive, y).res)
    ensures var s := DriveStep(DriveStep(DriveStep(d, x).drive, y).drive, z);
            DriveRun(d, [x, y, z]).halted == Halts(s.res) && DriveRun(d, [x, y, z]).drive == s.drive
  {
    hide DriveStep;
    assert [x, y, z][1..] == [y, z] && [y, z][1..] == [z];
    RunOne(DriveStep(DriveStep(d, x).drive, y).drive, z);
  }

  /** SET MULTIPLE MODE takes blocks of no or one sector and ends the emulation for larger ones. */
  lemma MultipleConfigures(d: Drive, count: u8)
    requires Inv(d)
    ensures var r := DriveRun(d, [Write8(SectorCount, count), Write8(Command, 0xc6)]);
            && (r.halted <==> count > 1)
            && (!r.halted ==> r.drive.cfg == d.cfg.(multiSect := count) && r.drive.disk == d.disk)
  {
    hide ExecCmd, StoreReg;
    var ops := [Write8(SectorCount, count), Write8(Command, 0xc6)];
    assert ops[1..] == [Write8(Command, 0xc6)];
    var d1 := DriveStep(d, ops[0]).drive;
    assert StoreReg(d.reg, SectorCount, count) == d.reg.(sectorCount := count) by { CountStored(d.reg, count); }
    RunOne(d1, Write8(Command, 0xc6));
    MultipleStep(d1);
  }

  lemma CountStored(r: Regs, count: u8)
    ensures StoreReg(r, SectorCount, count) == r.(sectorCount := count)
  {
  }

  lemma MultipleStep(d: Drive)
    requires !d.reg.status.bsy
    ensures var s := ExecCmd(d, 0xc6);
            && (Halts(s.res) <==> d.reg.sectorCount > 1)
            && (!Halts(s.res) ==> s.drive.cfg == d.cfg.(multiSect := d.reg.sectorCount) && s.drive.disk == d.disk)
  {
  }

  /** What the configuration decides: a transfer command with a good address ends the emulation exactly if
      it is a DMA command outside the DMA modes, or a multiple-sector one without blocks of one sector. */
  lemma LetThroughExactly(d: Drive, cmd: u8, lba: nat, n: nat)
    requires Inv(d) && AddressedAt(d.reg, lba, n) && 512 * (lba + n) <= |d.disk| && DataCommand(cmd)
    ensures Halts(ExecCmd(d, cmd).res) <==>
            || (DmaCommand(cmd) && !DmaMode(d.cfg.transferMode))
            || ((cmd == 0xc4 || cmd == 0xc5) && d.cfg.multiSect != 1)
  {
    hide Inv, TransferCmd;
    DmaModes(d.cfg.transferMode);
    assert !d.reg.status.bsy && IsTransferCmd(cmd) by { NotBusyYet(d); }
    StartsFine(Accepted(d), lba, n);
    LetThrough(Accepted(d), cmd);
  }

  lemma NotBusyYet(d: Drive)
    requires Inv(d)
    ensures !d.reg.status.bsy
  {
  }

  lemma StartsFine(d: Drive, lba: nat, n: nat)
    requires AddressedAt(d.reg, lba, n) && 512 * (lba + n) <= |d.disk|
    ensures forall fx :: StartRead(d, fx).res == Ok(0) && StartWrite(d, fx).res == Ok(0)
  {
    OffsetIffLba(d);
    assert n >= 1;
  }

  lemma LetThrough(d: Drive, cmd: u8)
    requires DataCommand(cmd) && forall fx :: StartRead(d, fx).res == Ok(0) && StartWrite(d, fx).res == Ok(0)
    ensures Halts(TransferCmd(d, cmd).res) <==>
            || (DmaCommand(cmd) && !IsDma(d.cfg.transferMode))
            || ((cmd == 0xc4 || cmd == 0xc5) && d.cfg.multiSect != 1)
  {
    hide StartRead, StartWrite, IsDma;
  }
}
