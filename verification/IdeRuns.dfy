/** Whole commands on a drive: programming the address registers, and writing and reading back. */
module IdeRuns {
  import opened Prim
  import opened Ide
  import opened IdeTheorems

  /** The block address in the registers, and whether LBA addressing is selected. */
  function Address(r: Regs): nat {
    (r.lba3 % 16) * 0x100_0000 + r.lba2 * 0x1_0000 + r.lba1 * 0x100 + r.lba0
  }

  /** CHS mode rejects every address, so a sector offset exists exactly in LBA mode. */
  lemma OffsetIffLba(d: Drive)
    ensures SectorOffset(d).Some? <==> Bit(d.reg.lba3, 6)
    ensures SectorOffset(d).Some? ==> SectorOffset(d).value == Address(d.reg) < 0x1000_0000
  {
  }

  /** The n sectors from block `lba` on. */
  function SectorBytes(disk: seq<u8>, lba: nat, n: nat): seq<u8>
    requires 512 * (lba + n) <= |disk|
  {
    disk[512 * lba..512 * (lba + n)]
  }

  predicate AddressedAt(r: Regs, lba: nat, n: nat) {
    Bit(r.lba3, 6) && Address(r) == lba && Sectors(r.sectorCount) == n
  }

  /** READ SECTORS, READ MULTIPLE with blocks of one sector, READ DMA in a DMA mode. */
  predicate ReadCommand(cmd: u8, cfg: Config) {
    || cmd == 0x20 || cmd == 0x21
    || (cmd == 0xc4 && cfg.multiSect == 1)
    || ((cmd == 0xc8 || cmd == 0xc9) && IsDma(cfg.transferMode))
  }

  /** The same for writing. */
  predicate WriteCommand(cmd: u8, cfg: Config) {
    || cmd == 0x30 || cmd == 0x31
    || (cmd == 0xc5 && cfg.multiSect == 1)
    || ((cmd == 0xca || cmd == 0xcb) && IsDma(cfg.transferMode))
  }

  /** The step leaves a read of n sectors at `lba` open. */
  predicate OpensRead(d: Drive, s: Step, lba: nat, n: nat)
    requires 512 * (lba + n) <= |d.disk|
  {
    s.res == Ok(0) && Inv(s.drive) && OnDisk(s.drive) && s.drive.cfg == d.cfg
    && s.drive.reg.status.drq && !s.drive.reg.status.err
    && FlatOf(s.drive) == Flat(d.disk, Out(SectorBytes(d.disk, lba, n)))
  }

  predicate OpensWrite(d: Drive, s: Step, lba: nat, n: nat) {
    s.res == Ok(0) && Inv(s.drive) && OnDisk(s.drive) && s.drive.cfg == d.cfg
    && FlatOf(s.drive) == Flat(d.disk, In(512 * lba, n, []))
  }

  lemma StartOpensRead(d: Drive, fx: Effect, lba: nat, n: nat)
    requires BusyInv(d) && !d.reg.status.err && AddressedAt(d.reg, lba, n) && 512 * (lba + n) <= |d.disk|
    ensures OpensRead(d, StartRead(d, fx), lba, n)
  {
    hide SectorOffset;
    OffsetIffLba(d);
    var at := lba * 512;
    assert d.disk[at..at + 512][0..] == d.disk[at..at + 512];
    assert d.disk[at..at + 512] + d.disk[at + 512..at + 512 + 512 * (n - 1)] == SectorBytes(d.disk, lba, n);
  }

  lemma StartOpensWrite(d: Drive, fx: Effect, lba: nat, n: nat)
    requires BusyInv(d) && AddressedAt(d.reg, lba, n) && 512 * (lba + n) <= |d.disk|
    ensures OpensWrite(d, StartWrite(d, fx), lba, n)
  {
    hide SectorOffset;
    OffsetIffLba(d);
    assert d.buf[..0] == [];
  }

  lemma CommandOpensRead(d: Drive, cmd: u8, lba: nat, n: nat)
    requires Inv(d) && AddressedAt(d.reg, lba, n) && ReadCommand(cmd, d.cfg)
    requires 512 * (lba + n) <= |d.disk|
    ensures OpensRead(d, ExecCmd(d, cmd), lba, n)
  {
    hide StartRead, StartWrite, ControlCmd, OnDisk, FlatOf;
    StartOpensRead(Accepted(d), QUIET, lba, n);
    StartOpensRead(Accepted(d), Effect(None, Some(true)), lba, n);
  }

  lemma CommandOpensWrite(d: Drive, cmd: u8, lba: nat, n: nat)
    requires Inv(d) && AddressedAt(d.reg, lba, n) && WriteCommand(cmd, d.cfg)
    requires 512 * (lba + n) <= |d.disk|
    ensures OpensWrite(d, ExecCmd(d, cmd), lba, n)
  {
    hide StartRead, StartWrite, ControlCmd, OnDisk, FlatOf;
    StartOpensWrite(Accepted(d), QUIET, lba, n);
    StartOpensWrite(Accepted(d), Effect(None, Some(true)), lba, n);
  }

  /** IDENTIFY DEVICE opens a read of the identify block. */
  lemma IdentifyOpensRead(d: Drive)
    requires Inv(d)
    ensures var s := ExecCmd(d, 0xec);
            s.res == Ok(0) && Inv(s.drive) && OnDisk(s.drive) && FlatOf(s.drive) == Flat(d.disk, Out(d.identify))
  {
    assert d.identify[0..] + [] == d.identify;
  }

  /** READ NATIVE MAX ADDRESS leaves the address of the last sector that 28 bits can address: it is on
      the disk, and the one behind it is not, unless the disk is larger than that. */
  lemma NativeMaxIsLastSector(d: Drive)
    requires Inv(d) && |d.disk| >= 512
    ensures var s := ExecCmd(d, 0xf8);
            && s.res == Ok(0) && s.drive.disk == d.disk && Bit(s.drive.reg.lba3, 6) == Bit(d.reg.lba3, 6)
            && 512 * (Address(s.drive.reg) + 1) <= |d.disk|
            && (Address(s.drive.reg) < 0x0fff_ffff ==> |d.disk| < 512 * (Address(s.drive.reg) + 2))
  {
    var s := ExecCmd(d, 0xf8);
    var lba := MaxLba(|d.disk|);
    AddressOfRegs(d.reg, lba);
    HighNibble(d.reg.lba3, s.drive.reg.lba3);
  }

  lemma AddressOfRegs(r: Regs, lba: nat)
    requires lba < 0x1000_0000
    ensures Address(AddressRegs(r, lba)) == lba
  {
    SplitAddress(lba);
    assert lba / 0x100_0000 % 16 == lba / 0x100_0000;
  }

  lemma HighNibble(a: u8, b: u8)
    requires a / 16 == b / 16
    ensures Bit(a, 6) == Bit(b, 6)
  {
    assert a / 64 == a / 16 / 4 && b / 64 == b / 16 / 4;
  }

  /** The register writes that address n sectors at `lba`. */
  function AddressWrites(lba: nat, n: nat): seq<Access>
    requires lba < 0x1000_0000
  {
    [Write8(DeviceHead, 0xe0 + lba / 0x100_0000), Write8(SectorCount, n % 256),
     Write8(SectorNo, lba % 256), Write8(CylinderLo, lba / 0x100 % 256),
     Write8(CylinderHi, lba / 0x1_0000 % 256)]
  }

  /** ... and the command that opens a transfer of them. */
  function Program(lba: nat, n: nat, cmd: u8): seq<Access>
    requires lba < 0x1000_0000
  {
    AddressWrites(lba, n) + [Write8(Command, cmd)]
  }

  function Programmed(d: Drive, lba: nat, n: nat): Drive
    requires lba < 0x1000_0000
  {
    d.(reg := d.reg.(lba3 := 0xe0 + lba / 0x100_0000, sectorCount := n % 256, lba0 := lba % 256,
                     lba1 := lba / 0x100 % 256, lba2 := lba / 0x1_0000 % 256))
  }

  lemma SplitAddress(lba: nat)
    requires lba < 0x1000_0000
    ensures Bit(0xe0 + lba / 0x100_0000, 6)
    ensures (0xe0 + lba / 0x100_0000) % 16 == lba / 0x100_0000
    ensures lba / 0x100_0000 * 0x100_0000 + lba / 0x1_0000 % 256 * 0x1_0000 + lba / 0x100 % 256 * 0x100 + lba % 256 == lba
  {
    var h := lba / 0x100_0000;
    assert 0 <= h < 16;
    assert lba / 0x1_0000 / 256 == h && lba / 0x100 / 256 == lba / 0x1_0000;
  }

  /** A register that only stores what is written to it. */
  predicate Stores(r: Reg) { r != Data && r != Command && r != Status && r != DataLatch }

  function Writes(ws: seq<(Reg, u8)>): seq<Access> {
    seq(|ws|, i requires 0 <= i < |ws| => Write8(ws[i].0, ws[i].1))
  }

  function StoreAll(regs: Regs, ws: seq<(Reg, u8)>): Regs
    decreases |ws|
  {
    if ws == [] then regs else StoreAll(StoreReg(regs, ws[0].0, ws[0].1), ws[1..])
  }

  lemma {:induction false} WritesRun(d: Drive, ws: seq<(Reg, u8)>)
    requires forall w :: w in ws ==> Stores(w.0)
    ensures var r := DriveRun(d, Writes(ws));
            !r.halted && r.drive == d.(reg := StoreAll(d.reg, ws)) && |r.results| == |ws|
    decreases |ws|
  {
    if ws != [] {
      assert Writes(ws)[1..] == Writes(ws[1..]);
      WritesRun(d.(reg := StoreReg(d.reg, ws[0].0, ws[0].1)), ws[1..]);
    }
  }

  lemma AddressRuns(d: Drive, lba: nat, n: nat)
    requires lba < 0x1000_0000
    ensures var r := DriveRun(d, AddressWrites(lba, n));
            !r.halted && r.drive == Programmed(d, lba, n) && |r.results| == 5
  {
    var ws := [(DeviceHead, 0xe0 + lba / 0x100_0000), (SectorCount, n % 256), (SectorNo, lba % 256),
               (CylinderLo, lba / 0x100 % 256), (CylinderHi, lba / 0x1_0000 % 256)];
    assert AddressWrites(lba, n) == Writes(ws);
    WritesRun(d, ws);
    StoresAddress(d.reg, 0xe0 + lba / 0x100_0000, n % 256, lba % 256, lba / 0x100 % 256, lba / 0x1_0000 % 256);
  }

  lemma StoresAddress(r: Regs, head: u8, count: u8, b0: u8, b1: u8, b2: u8)
    ensures StoreAll(r, [(DeviceHead, head), (SectorCount, count), (SectorNo, b0), (CylinderLo, b1), (CylinderHi, b2)])
              == r.(lba3 := head, sectorCount := count, lba0 := b0, lba1 := b1, lba2 := b2)
  {
    hide StoreAll;
    var w4 := [(CylinderHi, b2)];
    var w3 := [(CylinderLo, b1)] + w4;
    var w2 := [(SectorNo, b0)] + w3;
    var w1 := [(SectorCount, count)] + w2;
    assert [(DeviceHead, head)] + w1 ==
           [(DeviceHead, head), (SectorCount, count), (SectorNo, b0), (CylinderLo, b1), (CylinderHi, b2)];
    StoreFirst(r, DeviceHead, head, w1);
    var r1 := r.(lba3 := head);
    StoreFirst(r1, SectorCount, count, w2);
    var r2 := r1.(sectorCount := count);
    StoreFirst(r2, SectorNo, b0, w3);
    var r3 := r2.(lba0 := b0);
    StoreFirst(r3, CylinderLo, b1, w4);
    StoreFirst(r3.(lba1 := b1), CylinderHi, b2, []);
    assert w4 + [] == w4;
  }

  lemma StoreFirst(r: Regs, g: Reg, b: u8, ws: seq<(Reg, u8)>)
    ensures StoreAll(r, [(g, b)] + ws) == StoreAll(StoreReg(r, g, b), ws)
    ensures StoreAll(StoreReg(r, g, b), []) == StoreReg(r, g, b)
  {
    assert ([(g, b)] + ws)[1..] == ws;
  }

  lemma RunOne(d: Drive, a: Access)
    ensures var r := DriveRun(d, [a]);
            r.halted == Halts(DriveStep(d, a).res) && r.drive == DriveStep(d, a).drive && |r.results| == 1
  {
    assert [a][1..] == [];
  }

  /** Programming the registers and giving the command is the command on the programmed drive. */
  lemma ProgramRuns(d: Drive, lba: nat, n: nat, cmd: u8)
    requires lba < 0x1000_0000 && ExecCmd(Programmed(d, lba, n), cmd).res == Ok(0)
    ensures var r := DriveRun(d, Program(lba, n, cmd));
            !r.halted && r.drive == ExecCmd(Programmed(d, lba, n), cmd).drive && |r.results| == 6
  {
    AddressRuns(d, lba, n);
    RunOne(Programmed(d, lba, n), Write8(Command, cmd));
    RunAppend(d, AddressWrites(lba, n), [Write8(Command, cmd)]);
  }

  lemma ProgrammedIs(d: Drive, lba: nat, n: nat)
    requires Inv(d) && lba < 0x1000_0000 && 1 <= n <= 256
    ensures var p := Programmed(d, lba, n);
            Inv(p) && p.disk == d.disk && p.cfg == d.cfg && AddressedAt(p.reg, lba, n)
  {
    SplitAddress(lba);
  }

  /** A write of n sectors, however far it has got: exactly the completed sectors of the data
      are on the medium and every other byte is what it was.  It takes no more than 512 * n
      bytes. */
  lemma WriteReachesDisk(d: Drive, cmd: u8, lba: nat, n: nat, ops: seq<Access>)
    requires Inv(d) && lba < 0x1000_0000 && 1 <= n <= 256 && 512 * (lba + n) <= |d.disk|
    requires WriteCommand(cmd, d.cfg)
    requires forall a :: a in ops ==> FeedOp(a, d.cfg.eightbit)
    ensures var r := DriveRun(d, Program(lba, n, cmd) + ops);
            var data := Sent(ops, d.cfg.eightbit);
            && (!r.halted <==> |data| <= 512 * n)
            && (!r.halted ==>
                  && Inv(r.drive) && OnDisk(r.drive) && r.drive.cfg == d.cfg && |r.results| >= 6
                  && r.drive.disk == Splice(d.disk, 512 * lba, data[..512 * (|data| / 512)])
                  && (|data| == 512 * n <==> r.drive.state == Idle))
  {
    var p := Programmed(d, lba, n);
    ProgrammedIs(d, lba, n);
    CommandOpensWrite(p, cmd, lba, n);
    ProgramRuns(d, lba, n, cmd);
    RunAppend(d, Program(lba, n, cmd), ops);
    var w := ExecCmd(p, cmd).drive;
    WriteStream(w, ops);
    var data := Sent(ops, d.cfg.eightbit);
    if |data| <= 512 * n {
      FeedClosedForm(FlatOf(w), data);
      assert [] + data == data;
    }
  }

  /** A read of n sectors hands out exactly the bytes on the medium, in order, and leaves the
      medium alone. */
  lemma ReadReturnsDisk(d: Drive, cmd: u8, lba: nat, n: nat, ops: seq<Access>)
    requires Inv(d) && lba < 0x1000_0000 && 1 <= n <= 256 && 512 * (lba + n) <= |d.disk|
    requires ReadCommand(cmd, d.cfg)
    requires forall a :: a in ops ==> DrainOp(a)
    ensures var r := DriveRun(d, Program(lba, n, cmd) + ops);
            var k := Wanted(ops, d.cfg.eightbit);
            && (!r.halted <==> k <= 512 * n)
            && (!r.halted ==>
                  && 6 <= |r.results| <= |ops| + 6 && Inv(r.drive) && r.drive.disk == d.disk
                  && Got(ops, r.results[6..], d.cfg.eightbit) == SectorBytes(d.disk, lba, n)[..k])
  {
    var p := Programmed(d, lba, n);
    ProgrammedIs(d, lba, n);
    CommandOpensRead(p, cmd, lba, n);
    ProgramRuns(d, lba, n, cmd);
    RunAppend(d, Program(lba, n, cmd), ops);
    hide ExecCmd, AddressedAt, Programmed, ReadCommand;
    var q := ExecCmd(p, cmd).drive;
    ReadStream(q, ops);
    if Wanted(ops, d.cfg.eightbit) <= 512 * n {
      var r, s := DriveRun(d, Program(lba, n, cmd) + ops), DriveRun(q, ops);
      assert r.results[6..] == s.results;
    }
  }

  /** The law of the device: what was written is what is read back, whatever widths the
      accesses have and whatever other registers are touched in between. */
  lemma WriteReadRoundTrip(d: Drive, wcmd: u8, rcmd: u8, lba: nat, n: nat,
                           wops: seq<Access>, rops: seq<Access>)
    requires Inv(d) && lba < 0x1000_0000 && 1 <= n <= 256 && 512 * (lba + n) <= |d.disk|
    requires WriteCommand(wcmd, d.cfg) && ReadCommand(rcmd, d.cfg)
    requires forall a :: a in wops ==> FeedOp(a, d.cfg.eightbit)
    requires forall a :: a in rops ==> DrainOp(a)
    requires |Sent(wops, d.cfg.eightbit)| == 512 * n == Wanted(rops, d.cfg.eightbit)
    ensures var w := DriveRun(d, Program(lba, n, wcmd) + wops);
            var r := DriveRun(w.drive, Program(lba, n, rcmd) + rops);
            && !w.halted && !r.halted && 6 <= |r.results| <= |rops| + 6
            && Got(rops, r.results[6..], d.cfg.eightbit) == Sent(wops, d.cfg.eightbit)
            && r.drive.disk == Splice(d.disk, 512 * lba, Sent(wops, d.cfg.eightbit))
  {
    WriteReachesDisk(d, wcmd, lba, n, wops);
    var w := DriveRun(d, Program(lba, n, wcmd) + wops).drive;
    assert Inv(w) && w.cfg == d.cfg && |w.disk| == |d.disk|;
    ReadReturnsDisk(w, rcmd, lba, n, rops);
    SpliceReadsBack(d.disk, lba, n, Sent(wops, d.cfg.eightbit));
  }

  lemma SpliceReadsBack(disk: seq<u8>, lba: nat, n: nat, data: seq<u8>)
    requires 512 * (lba + n) <= |disk| && |data| == 512 * n
    ensures data[..512 * (|data| / 512)] == data
    ensures SectorBytes(Splice(disk, 512 * lba, data), lba, n)[..512 * n] == data
  {
  }
}
