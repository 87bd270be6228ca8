/** The interrupt and DMA-request lines as a guest sees them: what every access does to them, told
    from the drive before and after it, and what that makes of them over runs. */
module IdeLines {
  import opened Prim
  import opened Ide
  import opened IdeTheorems
  import opened IdeRuns
  import opened IdeController

  // ---------------------------------------------------------------- what a guest can tell

  /** Transfer modes with two or three leading zero bits. */
  predicate DmaMode(mode: u8) { !Bit(mode, 7) && !Bit(mode, 6) && (Bit(mode, 5) || Bit(mode, 4)) }

  /** The sectors that the open transfer still has to move, the one in the buffer included. */
  function SectorsLeft(d: Drive): nat { if d.state == ReadReady || d.state == WriteReady then d.remaining else 0 }

  predicate AsksStatus(a: Access) { (a.Read8? || a.Read16?) && (a.reg == Status || a.reg == Command) }

  /** The command an access gives. */
  function CommandOf(a: Access): Option<u8> {
    if a.reg != Status && a.reg != Command then None
    else match a
         case Write8(_, b) => Some(b)
         case Write16(_, w) => Some(w % 256)
         case _ => None
  }

  /** READ DMA and WRITE DMA. */
  predicate DmaCommand(cmd: u8) { cmd == 0xc8 || cmd == 0xc9 || cmd == 0xca || cmd == 0xcb }

  /** The commands that open a transfer: SECTORS, MULTIPLE, IDENTIFY and the DMA ones. */
  predicate DataCommand(cmd: u8) {
    || cmd == 0x20 || cmd == 0x21 || cmd == 0x30 || cmd == 0x31 || cmd == 0xc4 || cmd == 0xc5 || cmd == 0xec
    || DmaCommand(cmd)
  }

  /** Sleep, recalibrate, initialise parameters, native maximum, set maximum. */
  predicate ReportingCommand(cmd: u8) {
    cmd == 0x99 || cmd == 0xe6 || cmd == 0x10 || cmd == 0x91 || cmd == 0xf8 || cmd == 0xf9
  }

  /** What raises the interrupt line: a command that opens a transfer or reports its end; the last byte
      of a sector, where in DMA modes only the last sector counts. */
  predicate Due(d: Drive, a: Access, d': Drive) {
    match CommandOf(a)
    case Some(cmd) => DataCommand(cmd) || ReportingCommand(cmd)
    case None =>
      a.reg == Data && SectorsLeft(d') < SectorsLeft(d) && (DmaMode(d.cfg.transferMode) ==> SectorsLeft(d') == 0)
  }

  function IrqLevel(was: bool, d: Drive, a: Access, d': Drive): bool {
    if AsksStatus(a) then false else was || Due(d, a, d')
  }

  /** A DMA command requests data; the end of any transfer ends the request. */
  function DmarqLevel(was: bool, d: Drive, a: Access, d': Drive): bool {
    match CommandOf(a)
    case Some(cmd) => was || DmaCommand(cmd)
    case None => was && !(SectorsLeft(d) > 0 && SectorsLeft(d') == 0)
  }

  lemma DmaModes(mode: u8)
    ensures IsDma(mode) <==> DmaMode(mode)
  {
    Halves(mode);
  }

  lemma Halves(mode: u8)
    ensures mode / 128 % 2 == 1 <==> mode >= 128
    ensures mode / 64 % 2 == 0 && mode < 128 <==> mode < 64
    ensures mode < 64 ==> (mode / 32 % 2 == 1 <==> mode >= 32)
    ensures mode < 32 ==> (mode / 16 % 2 == 1 <==> mode >= 16)
  {
  }

  // ---------------------------------------------------------------- one access

  /** The step leaves both lines at these levels. */
  predicate LinesRight(d: Drive, a: Access, s: Step) {
    forall was ::
      && Level(was, s.fx.irq) == IrqLevel(was, d, a, s.drive)
      && Level(was, s.fx.dmarq) == DmarqLevel(was, d, a, s.drive)
  }

  /** One byte moved. */
  predicate ByteRight(d: Drive, s: Step) {
    && SectorsLeft(s.drive) <= SectorsLeft(d) && s.drive.cfg == d.cfg
    && s.fx.irq == (if SectorsLeft(s.drive) < SectorsLeft(d) && (IsDma(d.cfg.transferMode) ==> SectorsLeft(s.drive) == 0)
                    then Some(true) else None)
    && s.fx.dmarq == (if SectorsLeft(s.drive) == 0 then Some(false) else None)
    && SectorsLeft(d) > 0
  }

  lemma ReadByteRight(d: Drive)
    requires Inv(d) && !Halts(DataRead8(d).res)
    ensures ByteRight(d, DataRead8(d)) && Inv(DataRead8(d).drive)
  {
  }

  lemma WriteByteRight(d: Drive, b: u8)
    requires Inv(d) && !Halts(DataWrite8(d, b).res)
    ensures ByteRight(d, DataWrite8(d, b)) && Inv(DataWrite8(d, b).drive)
  {
  }

  /** Two bytes, with the second on what the first left. */
  lemma WordRight(d: Drive, s1: Step, s2: Step, s: Step)
    requires ByteRight(d, s1) && ByteRight(s1.drive, s2) && s.drive == s2.drive && s.fx == Then(s1.fx, s2.fx)
    ensures ByteRight(d, s)
  {
  }

  lemma ReadWordRight(d: Drive)
    requires Inv(d) && !Halts(DataRead16(d).res)
    ensures ByteRight(d, DataRead16(d))
  {
    hide DataRead8, Inv, ByteRight;
    ReadByteErrs(d);
    ReadByteRight(d);
    var s1 := DataRead8(d);
    if !d.cfg.eightbit {
      ReadByteErrs(s1.drive);
      ReadByteRight(s1.drive);
      WordRight(d, s1, DataRead8(s1.drive), DataRead16(d));
    }
  }

  lemma ReadByteErrs(d: Drive)
    ensures DataRead8(d).res.Err? <==> Halts(DataRead8(d).res)
  {
  }

  lemma WriteWordRight(d: Drive, w: u16)
    requires Inv(d) && !Halts(DataWrite16(d, w).res)
    ensures ByteRight(d, DataWrite16(d, w))
  {
    hide DataWrite8, Inv, ByteRight;
    if d.cfg.eightbit {
      WriteByteRight(d, w);
    } else {
      WriteByteErrs(d, w % 256);
      WriteByteRight(d, w % 256);
      var s1 := DataWrite8(d, w % 256);
      WriteByteErrs(s1.drive, w / 256);
      WriteByteRight(s1.drive, w / 256);
      WordRight(d, s1, DataWrite8(s1.drive, w / 256), DataWrite16(d, w));
    }
  }

  lemma WriteByteErrs(d: Drive, b: u8)
    ensures DataWrite8(d, b).res.Err? <==> Halts(DataWrite8(d, b).res)
  {
  }

  lemma DataRight(d: Drive, a: Access, s: Step)
    requires a.reg == Data && ByteRight(d, s)
    ensures LinesRight(d, a, s)
  {
    DmaModes(d.cfg.transferMode);
  }

  lemma CommandRight(d: Drive, a: Access, cmd: u8)
    requires Inv(d) && CommandOf(a) == Some(cmd) && !Halts(ExecCmd(d, cmd).res)
    ensures LinesRight(d, a, ExecCmd(d, cmd))
  {
    hide TransferCmd, ControlCmd;
    if IsTransferCmd(cmd) { TransferRight(Accepted(d), cmd); } else { ControlRight(Accepted(d), cmd); }
  }

  lemma TransferRight(d: Drive, cmd: u8)
    requires IsTransferCmd(cmd) && !Halts(TransferCmd(d, cmd).res)
    ensures DataCommand(cmd)
    ensures TransferCmd(d, cmd).fx == Effect(Some(true), if DmaCommand(cmd) then Some(true) else None)
  {
    hide OffsetOf, IsDma;
  }

  lemma ControlRight(d: Drive, cmd: u8)
    requires !IsTransferCmd(cmd) && !Halts(ControlCmd(d, cmd).res)
    ensures !DataCommand(cmd)
    ensures ControlCmd(d, cmd).fx == Effect(if ReportingCommand(cmd) then Some(true) else None, None)
  {
    hide AddressRegs, MaxLba;
  }

  lemma RegReadRight(d: Drive, a: Access)
    requires a.reg != Data && (a.Read8? || a.Read16?)
    ensures LinesRight(d, a, RegRead(d, a.reg))
  {
  }

  lemma StoreRight(d: Drive, a: Access, b: u8)
    requires a.reg != Data && a.reg != Command && a.reg != Status
    ensures LinesRight(d, a, RegWrite(d, a.reg, b)) || a.Read8? || a.Read16?
  {
  }

  lemma StepRight(d: Drive, a: Access)
    requires Inv(d) && !Halts(DriveStep(d, a).res)
    ensures LinesRight(d, a, DriveStep(d, a))
  {
    hide LinesRight, ByteRight, Inv, DataRead8, DataWrite8, DataRead16, DataWrite16, ExecCmd, StoreReg;
    if a.reg == Data {
      match a
      case Read8(_) => ReadByteRight(d); DataRight(d, a, DriveStep(d, a));
      case Read16(_) => ReadWordRight(d); DataRight(d, a, DriveStep(d, a));
      case Write8(_, b) => WriteByteRight(d, b); DataRight(d, a, DriveStep(d, a));
      case Write16(_, w) => WriteWordRight(d, w); DataRight(d, a, DriveStep(d, a));
    } else if a.Read8? || a.Read16? {
      RegReadRight(d, a);
    } else {
      var b := if a.Write8? then a.b else a.w % 256;
      if a.reg == Command || a.reg == Status { CommandRight(d, a, b); } else { StoreRight(d, a, b); }
    }
  }

  /** The law of both lines for one access through the controller. */
  lemma LinesStep(c: Ctl, a: Access)
    requires CtlInv(c) && !Halts(Perform(c, a).1)
    ensures var c' := Perform(c, a).0;
            var which := c'.second;
            match DriveOf(c, which)
            case None => c'.irq == c.irq && c'.dmarq == c.dmarq
            case Some(d) =>
              && DriveOf(c', which).Some?
              && c'.irq == IrqLevel(c.irq, d, a, DriveOf(c', which).value)
              && c'.dmarq == DmarqLevel(c.dmarq, d, a, DriveOf(c', which).value)
  {
    hide Inv, DriveStep;
    var which := SelectAfter(c.second, a);
    if DriveOf(c, which).Some? { StepRight(DriveOf(c, which).value, a); }
  }

  /** A transfer command that is let through raises the interrupt line, and a DMA command the DMA
      request as well. */
  lemma TransferInterrupts(c: Ctl, d: Drive, cmd: u8, lba: nat, n: nat)
    requires CtlInv(c) && DriveOf(c, c.second) == Some(d)
    requires AddressedAt(d.reg, lba, n) && 512 * (lba + n) <= |d.disk|
    requires ReadCommand(cmd, d.cfg) || WriteCommand(cmd, d.cfg)
    ensures var (c', res) := Perform(c, Write8(Command, cmd));
            res == Ok(0) && c'.irq && c'.dmarq == (c.dmarq || cmd == 0xc8 || cmd == 0xc9 || cmd == 0xca || cmd == 0xcb)
  {
    hide Inv, ExecCmd, AddressedAt, OpensRead, OpensWrite;
    if ReadCommand(cmd, d.cfg) {
      CommandOpensRead(d, cmd, lba, n);
      OpenedFine(d, ExecCmd(d, cmd), lba, n);
    } else {
      CommandOpensWrite(d, cmd, lba, n);
      OpenedFine(d, ExecCmd(d, cmd), lba, n);
    }
    LinesStep(c, Write8(Command, cmd));
  }

  lemma OpenedFine(d: Drive, s: Step, lba: nat, n: nat)
    requires 512 * (lba + n) <= |d.disk| && (OpensRead(d, s, lba, n) || OpensWrite(d, s, lba, n))
    ensures s.res == Ok(0)
  {
  }

  // ---------------------------------------------------------------- runs

  /** The controller after the first i accesses of a run. */
  function At(c: Ctl, ops: seq<Access>, i: nat): Ctl
    requires i <= |ops|
  {
    RunCtl(c, ops[..i]).ctl
  }

  /** Access i asks a drive for its status. */
  predicate Answers(c: Ctl, ops: seq<Access>, i: nat)
    requires i < |ops|
  {
    AsksStatus(ops[i]) && DriveOf(At(c, ops, i), At(c, ops, i + 1).second).Some?
  }

  /** Access i raises the interrupt line. */
  predicate Raises(c: Ctl, ops: seq<Access>, i: nat)
    requires i < |ops|
  {
    var which := At(c, ops, i + 1).second;
    var d, d' := DriveOf(At(c, ops, i), which), DriveOf(At(c, ops, i + 1), which);
    d.Some? && d'.Some? && Due(d.value, ops[i], d'.value)
  }

  /** The last of the accesses that touch the line has raised it (or none has touched it since it was
      high at the start). */
  predicate Raised(c: Ctl, ops: seq<Access>) {
    || (c.irq && forall i :: 0 <= i < |ops| ==> !Answers(c, ops, i))
    || exists i :: 0 <= i < |ops| && Raises(c, ops, i) && forall j :: i < j < |ops| ==> !Answers(c, ops, j)
  }

  lemma {:induction false} RunLast(c: Ctl, ops: seq<Access>)
    requires ops != [] && !RunCtl(c, ops).halted
    ensures var before := RunCtl(c, ops[..|ops| - 1]);
            && !before.halted && !Halts(Perform(before.ctl, ops[|ops| - 1]).1)
            && RunCtl(c, ops).ctl == Perform(before.ctl, ops[|ops| - 1]).0
    decreases |ops|
  {
    hide Perform;
    var front := ops[..|ops| - 1];
    if |ops| == 1 {
      assert ops[1..] == [] && front == [];
    } else {
      RunLast(Perform(c, ops[0]).0, ops[1..]);
      assert ops[1..][..|ops| - 2] == front[1..];
    }
  }

  lemma SameBefore(c: Ctl, ops: seq<Access>, i: nat)
    requires i + 1 < |ops|
    ensures var front := ops[..|ops| - 1];
            Answers(c, front, i) == Answers(c, ops, i) && Raises(c, front, i) == Raises(c, ops, i)
  {
    hide RunCtl, Due;
    var front := ops[..|ops| - 1];
    assert front[..i] == ops[..i] && front[..i + 1] == ops[..i + 1];
  }

  lemma RaisedFront(c: Ctl, ops: seq<Access>)
    requires ops != []
    ensures Raised(c, ops) <==>
            Raises(c, ops, |ops| - 1) || (Raised(c, ops[..|ops| - 1]) && !Answers(c, ops, |ops| - 1))
  {
    hide Answers, Raises;
    var n := |ops| - 1;
    var front := ops[..n];
    forall i | 0 <= i < n
      ensures Answers(c, front, i) == Answers(c, ops, i) && Raises(c, front, i) == Raises(c, ops, i)
    {
      SameBefore(c, ops, i);
    }
    if Raised(c, front) && !Answers(c, ops, n) {
      if i :| 0 <= i < n && Raises(c, front, i) && forall j :: i < j < n ==> !Answers(c, front, j) {
        assert Raises(c, ops, i);
      }
    }
    if Raised(c, ops) && !Raises(c, ops, n) {
      if i :| 0 <= i <= n && Raises(c, ops, i) && forall j :: i < j <= n ==> !Answers(c, ops, j) {
        assert Raises(c, front, i);
      }
    }
  }

  /** Over every run: the interrupt line is high exactly when a command or a finished sector has raised
      it and no drive has been asked for its status since. */
  lemma {:induction false} InterruptsExactly(c: Ctl, ops: seq<Access>)
    requires CtlInv(c) && !RunCtl(c, ops).halted
    ensures RunCtl(c, ops).ctl.irq <==> Raised(c, ops)
    decreases |ops|
  {
    hide Raised, RunCtl, Perform, CtlInv;
    if ops == [] {
      NoAccess(c);
    } else {
      var n := |ops| - 1;
      RunLast(c, ops);
      InterruptsExactly(c, ops[..n]);
      CtlRunKeepsInv(c, ops[..n]);
      RaisedFront(c, ops);
      assert ops[..n + 1] == ops;
      LinesStep(At(c, ops, n), ops[n]);
    }
  }

  lemma NoAccess(c: Ctl)
    ensures Raised(c, []) == c.irq && RunCtl(c, []).ctl == c && !RunCtl(c, []).halted
  {
  }

  // ---------------------------------------------------------------- transfers

  /** Sectors left, told from the bytes a read has still to hand out or a write still takes. */
  lemma SectorsOfBytes(d: Drive)
    requires Inv(d) && OnDisk(d)
    ensures WellFormed(FlatOf(d))
    ensures SectorsLeft(d) == (|Pending(FlatOf(d))| + Room(FlatOf(d)) + 511) / 512
  {
    if d.state != Idle { RoundUp(d.remaining, d.idx); }
  }

  lemma RoundUp(n: nat, i: nat)
    requires i < 512
    ensures (512 * n - i + 511) / 512 == n
  {
  }

  /** Neither a command nor a question for the status, and no change of drive. */
  predicate Streaming(a: Access, second: bool) {
    CommandOf(a) == None && !AsksStatus(a) && SelectAfter(second, a) == second
  }

  lemma StreamStep(d: Drive, a: Access)
    requires Inv(d) && CommandOf(a) == None && !Halts(DriveStep(d, a).res)
    ensures var d' := DriveStep(d, a).drive;
            SectorsLeft(d') <= SectorsLeft(d) && d'.cfg == d.cfg && (a.reg != Data ==> SectorsLeft(d') == SectorsLeft(d))
  {
    hide DataRead8, DataWrite8, DataRead16, DataWrite16, Inv, StoreReg, ExecCmd;
    if a.reg == Data {
      match a
      case Read8(_) => ReadByteRight(d);
      case Read16(_) => ReadWordRight(d);
      case Write8(_, b) => WriteByteRight(d, b);
      case Write16(_, w) => WriteWordRight(d, w);
    }
  }

  /** Over any run of data accesses and accesses to other registers: in PIO modes every finished sector
      raises the interrupt line, in DMA modes only the last one does; the DMA request lasts until the
      last sector is moved. */
  lemma {:induction false} StreamLines(c: Ctl, d: Drive, ops: seq<Access>)
    requires CtlInv(c) && DriveOf(c, c.second) == Some(d) && !RunCtl(c, ops).halted
    requires forall a :: a in ops ==> Streaming(a, c.second)
    ensures var c' := RunCtl(c, ops).ctl;
            && CtlInv(c') && c'.second == c.second && DriveOf(c', c.second).Some?
            && var d' := DriveOf(c', c.second).value;
               && d'.cfg == d.cfg && SectorsLeft(d') <= SectorsLeft(d)
               && c'.irq == (c.irq || (SectorsLeft(d') < SectorsLeft(d)
                                       && (DmaMode(d.cfg.transferMode) ==> SectorsLeft(d') == 0)))
               && c'.dmarq == (c.dmarq && !(SectorsLeft(d) > 0 && SectorsLeft(d') == 0))
    decreases |ops|
  {
    hide CtlInv, SectorsLeft, DmaMode, DriveStep, RunCtl;
    if ops == [] {
      NoAccess(c);
    } else {
      var n := |ops| - 1;
      assert Streaming(ops[n], c.second);
      RunLast(c, ops);
      StreamLines(c, d, ops[..n]);
      CtlRunKeepsInv(c, ops);
      var m := RunCtl(c, ops[..n]).ctl;
      LinesStep(m, ops[n]);
      SelectedInv(m);
      StreamStep(DriveOf(m, c.second).value, ops[n]);
    }
  }

  lemma SelectedInv(c: Ctl)
    requires CtlInv(c) && DriveOf(c, c.second).Some?
    ensures Inv(DriveOf(c, c.second).value)
  {
  }

  // ---------------------------------------------------------------- data request

  /** The status asks for data exactly while a transfer is open. */
  predicate DrqRight(d: Drive) { d.reg.status.drq <==> SectorsLeft(d) > 0 }

  /** No command but one that opens a transfer breaks in on an open one. */
  predicate Patient(d: Drive, a: Access) {
    CommandOf(a).Some? && !DataCommand(CommandOf(a).value) ==> SectorsLeft(d) == 0
  }

  lemma DrqStep(d: Drive, a: Access)
    requires Inv(d) && DrqRight(d) && Patient(d, a) && !Halts(DriveStep(d, a).res)
    ensures DrqRight(DriveStep(d, a).drive)
  {
    hide DataRead8, DataWrite8, DataRead16, DataWrite16, ExecCmd, Inv, DrqRight, StoreReg;
    if a.reg == Data {
      DrqData(d, a);
    } else if CommandOf(a).Some? {
      DrqCommand(d, CommandOf(a).value);
    } else if a.Write8? || a.Write16? {
      DrqStore(d, a.reg, if a.Write8? then a.b else a.w % 256);
    }
  }

  lemma DrqStore(d: Drive, r: Reg, b: u8)
    requires DrqRight(d)
    ensures DrqRight(d.(reg := StoreReg(d.reg, r, b)))
  {
  }

  /** Every access of the run is patient. */
  predicate PatientRun(d: Drive, ops: seq<Access>)
    decreases |ops|
  {
    ops != [] ==> Patient(d, ops[0]) && PatientRun(DriveStep(d, ops[0]).drive, ops[1..])
  }

  lemma {:induction false} DrqExactly(d: Drive, ops: seq<Access>)
    requires Inv(d) && DrqRight(d) && PatientRun(d, ops) && !DriveRun(d, ops).halted
    ensures DrqRight(DriveRun(d, ops).drive)
    decreases |ops|
  {
    hide DriveStep, Inv, DrqRight, Patient;
    if ops != [] {
      StepKeepsInv(d, ops[0]);
      DrqStep(d, ops[0]);
      DrqExactly(DriveStep(d, ops[0]).drive, ops[1..]);
    }
  }

  lemma DrqByteRead(d: Drive)
    requires Inv(d) && DrqRight(d) && !Halts(DataRead8(d).res)
    ensures DrqRight(DataRead8(d).drive) && Inv(DataRead8(d).drive)
  {
  }

  lemma DrqByteWrite(d: Drive, b: u8)
    requires Inv(d) && DrqRight(d) && !Halts(DataWrite8(d, b).res)
    ensures DrqRight(DataWrite8(d, b).drive) && Inv(DataWrite8(d, b).drive)
  {
    hide FlushSector;
    WriteSound(d, b);
    if d.idx + 1 == 512 { DrqFlush(d.(buf := d.buf[d.idx := b], idx := d.idx + 1)); }
  }

  lemma DrqFlush(d: Drive)
    requires !Halts(FlushSector(d).res)
    ensures DrqRight(FlushSector(d).drive)
  {
    hide Splice;
  }

  lemma DrqData(d: Drive, a: Access)
    requires Inv(d) && DrqRight(d) && a.reg == Data && !Halts(DriveStep(d, a).res)
    ensures DrqRight(DriveStep(d, a).drive)
  {
    hide DataRead8, DataWrite8, Inv, DrqRight;
    match a
    case Read8(_) => DrqByteRead(d);
    case Read16(_) =>
      ReadByteErrs(d);
      DrqByteRead(d);
      if !d.cfg.eightbit {
        ReadByteErrs(DataRead8(d).drive);
        DrqByteRead(DataRead8(d).drive);
      }
    case Write8(_, b) => DrqByteWrite(d, b);
    case Write16(_, w) =>
      if d.cfg.eightbit {
        DrqByteWrite(d, w);
      } else {
        WriteByteErrs(d, w % 256);
        DrqByteWrite(d, w % 256);
        DrqByteWrite(DataWrite8(d, w % 256).drive, w / 256);
      }
  }

  lemma DrqCommand(d: Drive, cmd: u8)
    requires Inv(d) && DrqRight(d) && (!DataCommand(cmd) ==> SectorsLeft(d) == 0) && !Halts(ExecCmd(d, cmd).res)
    ensures DrqRight(ExecCmd(d, cmd).drive)
  {
    hide TransferCmd, ControlCmd;
    if IsTransferCmd(cmd) { DrqTransfer(Accepted(d), cmd); } else { DrqControl(Accepted(d), cmd); }
  }

  lemma DrqTransfer(d: Drive, cmd: u8)
    requires IsTransferCmd(cmd) && !Halts(TransferCmd(d, cmd).res)
    ensures DrqRight(TransferCmd(d, cmd).drive)
  {
    hide OffsetOf, IsDma;
  }

  lemma DrqControl(d: Drive, cmd: u8)
    requires !IsTransferCmd(cmd) && !Halts(ControlCmd(d, cmd).res)
    requires DrqRight(d) && (!DataCommand(cmd) ==> SectorsLeft(d) == 0)
    ensures DrqRight(ControlCmd(d, cmd).drive)
  {
    hide DrqRight, SectorsLeft, ControlCmd;
    ControlRight(d, cmd);
    ControlKeeps(d, cmd);
    NoTransfer(d, ControlCmd(d, cmd).drive);
  }

  /** The status changes, the transfer does not. */
  predicate KeepsTransfer(d: Drive, d': Drive) {
    d'.state == d.state && d'.remaining == d.remaining && (d'.reg.status.drq ==> d.reg.status.drq)
  }

  lemma ControlKeeps(d: Drive, cmd: u8)
    ensures KeepsTransfer(d, ControlCmd(d, cmd).drive)
  {
    hide KeepsTransfer, SetFeatures, NativeMax, NotBusy, Ready;
    FeaturesKeep(d);
    NativeMaxKeeps(d);
    StatusKeeps(d, d.reg.status.(bsy := false, drdy := true, drq := false), d.reg.error);
    StatusKeeps(d, d.reg.status.(bsy := false, err := true), 1);
    ReadyKeeps(d);
  }

  lemma StatusKeeps(d: Drive, s: StatusBits, error: u8)
    requires s.drq ==> d.reg.status.drq
    ensures KeepsTransfer(d, d.(reg := d.reg.(status := s)))
    ensures KeepsTransfer(d, d.(reg := d.reg.(status := s, error := error)))
  {
  }

  lemma ReadyKeeps(d: Drive)
    ensures KeepsTransfer(d, NotBusy(d)) && KeepsTransfer(d, Ready(d))
    ensures KeepsTransfer(d, NotBusy(d.(cfg := d.cfg.(multiSect := d.reg.sectorCount))))
    ensures KeepsTransfer(d, d.(cfg := d.cfg.(multiSect := d.reg.sectorCount)))
  {
  }

  lemma FeaturesKeep(d: Drive)
    ensures KeepsTransfer(d, SetFeatures(d).drive)
  {
  }

  lemma NativeMaxKeeps(d: Drive)
    ensures KeepsTransfer(d, NativeMax(d).drive)
  {
    hide AddressRegs, MaxLba;
  }

  lemma NoTransfer(d: Drive, d': Drive)
    requires DrqRight(d) && SectorsLeft(d) == 0
    requires KeepsTransfer(d, d')
    ensures DrqRight(d')
  {
  }
}
