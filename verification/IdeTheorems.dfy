/** What holds of the drive on every run of register accesses: the protocol invariant, and
    the refinement of the drive to a flat disk with one open transfer. */
module IdeTheorems {
  import opened Prim
  import opened Ide

  // ---------------------------------------------------------------- invariant

  predicate Inv(d: Drive) {
    && |d.buf| == 512 && |d.identify| == 512
    && !d.reg.status.bsy
    && (d.state == Idle || d.state == ReadReady || d.state == WriteReady)
    && (d.reg.status.drq ==> d.state != Idle)
    && (d.state != Idle ==> 1 <= d.remaining <= 256 && d.idx < 512)
    && d.cfg.multiSect <= 1
  }

  /** The error results that would mean the driver's countdown or buffer cursor broke. */
  predicate Broken(r: Res) {
    r.Err? && (r.exn == Panic || r.exn == Fatal(ReadPastEnd) || r.exn == Fatal(WritePastEnd))
  }

  predicate IsStatus(r: Reg) { r == Status || r == Command || r == AltStatus || r == DevControl }

  /** What one step owes the invariant. */
  predicate Sound(s: Step) {
    !Broken(s.res) && (!Halts(s.res) ==> Inv(s.drive))
  }

  lemma ReadSound(d: Drive)
    requires Inv(d)
    ensures Sound(DataRead8(d))
  {
  }

  lemma WriteSound(d: Drive, v: u8)
    requires Inv(d)
    ensures Sound(DataWrite8(d, v))
  {
  }

  lemma ReadWordSound(d: Drive)
    requires Inv(d)
    ensures Sound(DataRead16(d))
  {
    hide DataRead8, Inv;
    ReadSound(d);
    if DataRead8(d).res.Ok? { ReadSound(DataRead8(d).drive); }
  }

  lemma WriteWordSound(d: Drive, w: u16)
    requires Inv(d)
    ensures Sound(DataWrite16(d, w))
  {
    hide DataWrite8, Inv;
    if w < 0x100 { WriteSound(d, w); }
    WriteSound(d, w % 256);
    if DataWrite8(d, w % 256).res.Ok? { WriteSound(DataWrite8(d, w % 256).drive, w / 256); }
  }

  /** `Inv` of a drive that a command has just marked busy. */
  predicate BusyInv(d: Drive) { Inv(NotBusy(d)) }

  lemma StartSound(d: Drive, fx: Effect)
    requires BusyInv(d)
    ensures Sound(StartRead(d, fx)) && Sound(StartWrite(d, fx))
  {
  }

  lemma TransferSound(d: Drive, cmd: u8)
    requires BusyInv(d) && IsTransferCmd(cmd)
    ensures Sound(TransferCmd(d, cmd))
  {
    StartSound(d, QUIET);
    StartSound(d, Effect(None, Some(true)));
  }

  lemma ControlSound(d: Drive, cmd: u8)
    requires BusyInv(d)
    ensures Sound(ControlCmd(d, cmd))
  {
    if cmd == 0xef { FeaturesSound(d); }
    else if cmd == 0xf8 { NativeMaxSound(d); }
    else { PlainControlSound(d, cmd); }
  }

  lemma PlainControlSound(d: Drive, cmd: u8)
    requires BusyInv(d) && cmd != 0xef && cmd != 0xf8
    ensures Sound(ControlCmd(d, cmd))
  {
    hide SetFeatures, NativeMax, Inv;
    var s := d.reg.status;
    StatusSound(d, s.(bsy := false));
    if cmd == 0xc6 {
      MultipleSound(d, s.(bsy := false));
    } else {
      StatusSound(d, s.(bsy := false, drdy := true, drq := false));
      StatusSound(d, Ready(d).reg.status);
      StatusSound(d, s.(bsy := false, err := true));
    }
  }

  /** A command that leaves the drive with this status is done soundly. */
  lemma StatusSound(d: Drive, s: StatusBits)
    requires BusyInv(d) && !s.bsy && (s.drq ==> d.reg.status.drq)
    ensures Inv(d.(reg := d.reg.(status := s))) && Inv(d.(reg := d.reg.(status := s, error := 1)))
  {
  }

  lemma MultipleSound(d: Drive, s: StatusBits)
    requires BusyInv(d) && s == d.reg.status.(bsy := false)
    ensures d.reg.sectorCount <= 1 ==>
              Inv(d.(cfg := d.cfg.(multiSect := d.reg.sectorCount), reg := d.reg.(status := s)))
  {
  }

  lemma FeaturesSound(d: Drive)
    requires BusyInv(d)
    ensures Sound(SetFeatures(d))
  {
  }

  lemma NativeMaxSound(d: Drive)
    requires BusyInv(d)
    ensures Sound(NativeMax(d))
  {
  }

  /** The drive once a command has been accepted. */
  function Accepted(d: Drive): (busy: Drive)
    requires Inv(d)
    ensures BusyInv(busy)
  {
    d.(reg := d.reg.(status := d.reg.status.(bsy := true, err := false), error := 0))
  }

  lemma CommandSound(d: Drive, cmd: u8)
    requires Inv(d)
    ensures Sound(ExecCmd(d, cmd))
  {
    hide TransferCmd, ControlCmd;
    var busy := Accepted(d);
    if IsTransferCmd(cmd) { TransferSound(busy, cmd); } else { ControlSound(busy, cmd); }
  }

  lemma StatusBelow(s: StatusBits)
    requires !s.bsy
    ensures StatusByte(s) < 128
  {
  }

  lemma RegReadSound(d: Drive, r: Reg)
    requires Inv(d)
    ensures Sound(RegRead(d, r))
    ensures IsStatus(r) ==> RegRead(d, r).res.Ok? && RegRead(d, r).res.value < 128
  {
    hide DataRead8, StatusByte;
    if r == Data { ReadSound(d); }
    StatusBelow(d.reg.status);
  }

  lemma RegWriteSound(d: Drive, r: Reg, b: u8)
    requires Inv(d)
    ensures Sound(RegWrite(d, r, b))
  {
    hide DataWrite8, ExecCmd;
    if r == Data { WriteSound(d, b); }
    else if r == Command || r == Status { CommandSound(d, b); }
  }

  /** One access keeps the invariant unless it ends the emulation, is never Broken even
      then, and a status read never shows BSY. */
  lemma StepKeepsInv(d: Drive, a: Access)
    requires Inv(d)
    ensures !Broken(DriveStep(d, a).res)
    ensures !Halts(DriveStep(d, a).res) ==> Inv(DriveStep(d, a).drive)
    ensures (a.Read8? || a.Read16?) && IsStatus(a.reg) ==>
              DriveStep(d, a).res.Ok? && DriveStep(d, a).res.value < 128
  {
    match a
    case Read8(r) => RegReadSound(d, r);
    case Read16(r) => RegReadSound(d, r); ReadWordSound(d);
    case Write8(r, b) => RegWriteSound(d, r, b);
    case Write16(r, w) => RegWriteSound(d, r, w % 256); WriteWordSound(d, w);
  }

  datatype Run = Run(drive: Drive, results: seq<Res>, halted: bool)

  /** A run stops at the first access that ends the emulation. */
  function DriveRun(d: Drive, ops: seq<Access>): Run
    decreases |ops|
  {
    if ops == [] then Run(d, [], false)
    else
      var s := DriveStep(d, ops[0]);
      if Halts(s.res) then Run(s.drive, [s.res], true)
      else
        var rest := DriveRun(s.drive, ops[1..]);
        Run(rest.drive, [s.res] + rest.results, rest.halted)
  }

  lemma {:induction false} RunKeepsInv(d: Drive, ops: seq<Access>)
    requires Inv(d)
    ensures !DriveRun(d, ops).halted ==> Inv(DriveRun(d, ops).drive)
    ensures forall r :: r in DriveRun(d, ops).results ==> !Broken(r)
    ensures |DriveRun(d, ops).results| <= |ops|
    ensures forall i :: 0 <= i < |DriveRun(d, ops).results| && (ops[i].Read8? || ops[i].Read16?) && IsStatus(ops[i].reg)
              ==> DriveRun(d, ops).results[i].Ok? && DriveRun(d, ops).results[i].value < 128
    decreases |ops|
  {
    hide DriveStep, Inv, Broken;
    if ops != [] {
      StepKeepsInv(d, ops[0]);
      var s := DriveStep(d, ops[0]);
      if !Halts(s.res) {
        RunKeepsInv(s.drive, ops[1..]);
      }
    }
  }

  lemma {:induction false} RunAppend(d: Drive, a: seq<Access>, b: seq<Access>)
    ensures var ra := DriveRun(d, a);
            DriveRun(d, a + b) ==
              if ra.halted then ra
              else
                var rb := DriveRun(ra.drive, b);
                Run(rb.drive, ra.results + rb.results, rb.halted)
    decreases |a|
  {
    if a == [] {
      assert a + b == b;
      assert DriveRun(d, b).results == [] + DriveRun(d, b).results;
    } else {
      assert (a + b)[0] == a[0] && (a + b)[1..] == a[1..] + b;
      var s := DriveStep(d, a[0]);
      if !Halts(s.res) {
        RunAppend(s.drive, a[1..], b);
        var ra := DriveRun(s.drive, a[1..]);
        if !ra.halted {
          assert [s.res] + (ra.results + DriveRun(ra.drive, b).results)
              == ([s.res] + ra.results) + DriveRun(ra.drive, b).results;
        }
      }
    }
  }

  // ---------------------------------------------------------------- the flat disk

  /** A disk with at most one open transfer.  `Out` holds the bytes still to be handed out;
      `In` the place of the next sector, the sectors still expected and the bytes of the
      unfinished sector. */
  datatype Transfer = Closed | Out(pending: seq<u8>) | In(at: nat, left: nat, part: seq<u8>)
  datatype Flat = Flat(disk: seq<u8>, xfer: Transfer)

  /** The rest of the open transfer lies on the medium. */
  predicate OnDisk(d: Drive) {
    match d.state
    case ReadReady => d.remaining == 1 || (d.remaining > 1 && d.pos + 512 * (d.remaining - 1) <= |d.disk|)
    case WriteReady => d.pos + 512 * d.remaining <= |d.disk|
    case _ => true
  }

  /** What an open read will take from the disk after the buffer. */
  function Ahead(d: Drive): seq<u8>
    requires d.state == ReadReady && OnDisk(d)
  {
    if d.remaining == 1 then [] else d.disk[d.pos..d.pos + 512 * (d.remaining - 1)]
  }

  function FlatOf(d: Drive): Flat
    requires Inv(d) && OnDisk(d)
  {
    Flat(d.disk,
         match d.state
         case ReadReady => Out(d.buf[d.idx..] + Ahead(d))
         case WriteReady => In(d.pos, d.remaining, d.buf[..d.idx])
         case _ => Closed)
  }

  function FlatTake(f: Flat): (Flat, u8)
    requires f.xfer.Out? && f.xfer.pending != []
  {
    (f.(xfer := if |f.xfer.pending| == 1 then Closed else Out(f.xfer.pending[1..])), f.xfer.pending[0])
  }

  function FlatPut(f: Flat, b: u8): Flat
    requires f.xfer.In? && f.xfer.at + 512 <= |f.disk| && f.xfer.left > 0 && |f.xfer.part| < 512
  {
    var part := f.xfer.part + [b];
    if |part| < 512 then f.(xfer := f.xfer.(part := part))
    else Flat(Splice(f.disk, f.xfer.at, part),
              if f.xfer.left == 1 then Closed else In(f.xfer.at + 512, f.xfer.left - 1, []))
  }

  /** One data byte read is one byte taken from the flat disk's open read. */
  predicate Takes(d: Drive, s: Step)
    requires Inv(d) && OnDisk(d) && d.state == ReadReady
  {
    && s.res.Ok? && Inv(s.drive) && OnDisk(s.drive) && s.drive.cfg == d.cfg
    && FlatOf(d).xfer.pending != [] && (FlatOf(s.drive), s.res.value) == FlatTake(FlatOf(d))
  }

  lemma ReadRefines(d: Drive)
    requires Inv(d) && OnDisk(d) && d.state == ReadReady
    ensures Takes(d, DataRead8(d))
  {
    hide Takes, DataRead8, OnDisk;
    if d.idx + 1 < 512 { ReadInSector(d); } else if d.remaining > 1 { ReadIntoNext(d); } else { ReadLast(d); }
  }

  lemma ReadInSector(d: Drive)
    requires Inv(d) && OnDisk(d) && d.state == ReadReady && d.idx + 1 < 512
    ensures Takes(d, DataRead8(d))
  {
    assert d.buf[d.idx..] == [d.buf[d.idx]] + d.buf[d.idx + 1..];
    HeadOff(d.buf[d.idx], d.buf[d.idx + 1..], Ahead(d));
  }

  lemma ReadIntoNext(d: Drive)
    requires Inv(d) && OnDisk(d) && d.state == ReadReady && d.idx == 511 && d.remaining > 1
    ensures Takes(d, DataRead8(d))
  {
    LoadsNext(d);
    hide DataRead8, Inv, OnDisk, Ahead;
    AheadLoaded(d, DataRead8(d).drive);
    HeadOff(d.buf[511], [], Ahead(d));
  }

  lemma AheadLoaded(d: Drive, d1: Drive)
    requires d.state == ReadReady && OnDisk(d) && d.idx == 511 && d.remaining > 1 && |d.buf| == 512
    requires d.pos + 512 * (d.remaining - 1) <= |d.disk|
    requires d1 == d.(buf := d.disk[d.pos..d.pos + 512], pos := d.pos + 512, idx := 0,
                      remaining := d.remaining - 1, reg := d1.reg)
    ensures OnDisk(d1) && d1.buf[d1.idx..] + Ahead(d1) == Ahead(d) && Ahead(d) != []
    ensures d.buf[d.idx..] == [d.buf[511]] + []
  {
    NextSectors(d.disk, d.pos, d.remaining - 1);
  }

  lemma LoadsNext(d: Drive)
    requires Inv(d) && OnDisk(d) && d.state == ReadReady && d.idx == 511 && d.remaining > 1
    ensures |d.buf| == 512 && d.pos + 512 * (d.remaining - 1) <= |d.disk|
    ensures var d1 := DataRead8(d).drive;
            && DataRead8(d).res == Ok(d.buf[511]) && Inv(d1) && OnDisk(d1)
            && d1 == d.(buf := d.disk[d.pos..d.pos + 512], pos := d.pos + 512, idx := 0,
                        remaining := d.remaining - 1, reg := d1.reg)
  {
  }

  lemma ReadLast(d: Drive)
    requires Inv(d) && OnDisk(d) && d.state == ReadReady && d.idx == 511 && d.remaining == 1
    ensures Takes(d, DataRead8(d))
  {
    assert d.buf[d.idx..] == [d.buf[d.idx]] + [];
  }

  lemma HeadOff(b: u8, rest: seq<u8>, more: seq<u8>)
    ensures var all := ([b] + rest) + more;
            all[0] == b && all[1..] == rest + more
  {
  }

  lemma NextSectors(disk: seq<u8>, pos: nat, n: nat)
    requires n > 0 && pos + 512 * n <= |disk|
    ensures disk[pos..pos + 512 * n] == disk[pos..pos + 512] + disk[pos + 512..pos + 512 + 512 * (n - 1)]
  {
    var e := pos + 512 * n;
    assert e == pos + 512 + 512 * (n - 1);
    assert disk[pos..e] == disk[pos..pos + 512] + disk[pos + 512..e];
  }

  lemma WriteRefines(d: Drive, b: u8)
    requires Inv(d) && OnDisk(d) && d.state == WriteReady
    ensures var s := DataWrite8(d, b);
            s.res == Ok(0) && Inv(s.drive) && OnDisk(s.drive) && s.drive.cfg == d.cfg &&
            d.pos + 512 <= |d.disk| &&
            FlatOf(s.drive) == FlatPut(FlatOf(d), b)
  {
    if d.idx + 1 < 512 {
      assert d.buf[d.idx := b][..d.idx + 1] == d.buf[..d.idx] + [b];
    } else {
      SectorRefines(d, b);
    }
  }

  lemma SectorRefines(d: Drive, b: u8)
    requires Inv(d) && OnDisk(d) && d.state == WriteReady && d.idx == 511
    ensures var s := DataWrite8(d, b);
            s.res == Ok(0) && Inv(s.drive) && OnDisk(s.drive) && s.drive.cfg == d.cfg &&
            d.pos + 512 <= |d.disk| &&
            FlatOf(s.drive) == FlatPut(FlatOf(d), b)
  {
    assert d.buf[d.idx := b] == d.buf[..d.idx] + [b];
    assert DataWrite8(d, b).drive.buf[..0] == [];
  }

  /** Neither a data access nor a command. */
  predicate Quiet(a: Access) {
    a.reg != Data && ((a.Write8? || a.Write16?) ==> a.reg != Command && a.reg != Status)
  }

  lemma QuietKeepsTransfer(d: Drive, a: Access)
    requires Inv(d) && OnDisk(d) && Quiet(a)
    ensures var s := DriveStep(d, a);
            Inv(s.drive) && OnDisk(s.drive) && FlatOf(s.drive) == FlatOf(d) && s.drive.cfg == d.cfg
  {
    hide Inv, OnDisk, FlatOf;
    var d1 := DriveStep(d, a).drive;
    assert d1 == d.(reg := d1.reg) && d1.reg.status == d.reg.status;
    OtherRegs(d, d1);
  }

  lemma OtherRegs(d: Drive, d1: Drive)
    requires Inv(d) && OnDisk(d) && d1 == d.(reg := d1.reg) && d1.reg.status == d.reg.status
    ensures Inv(d1) && OnDisk(d1) && FlatOf(d1) == FlatOf(d)
  {
  }

  // ---------------------------------------------------------------- data streams

  /** The bytes an access moves to the drive, and the bytes it moves from it. */
  function BytesIn(a: Access, eightbit: bool): seq<u8> {
    if a.reg != Data then []
    else if a.Write8? then [a.b]
    else if a.Write16? then if eightbit then [a.w % 256] else [a.w % 256, a.w / 256]
    else []
  }

  function BytesOut(a: Access, r: Res, eightbit: bool): seq<u8> {
    if a.reg != Data || r.Err? then []
    else if a.Read8? then [r.value % 256]
    else if a.Read16? then if eightbit then [r.value % 256] else [r.value % 256, r.value / 256]
    else []
  }

  function Sent(ops: seq<Access>, eightbit: bool): seq<u8> {
    if ops == [] then [] else BytesIn(ops[0], eightbit) + Sent(ops[1..], eightbit)
  }

  function Got(ops: seq<Access>, results: seq<Res>, eightbit: bool): seq<u8>
    requires |results| <= |ops|
  {
    if results == [] then [] else BytesOut(ops[0], results[0], eightbit) + Got(ops[1..], results[1..], eightbit)
  }

  /** Accesses a guest may make while it feeds (drains) a transfer: anything but commands, the
      missing data latch, and data accesses in the wrong direction. */
  predicate FeedOp(a: Access, eightbit: bool) {
    if a.reg == Data then a.Write8? || (a.Write16? && (eightbit ==> a.w < 256))
    else Quiet(a) && a.reg != DataLatch
  }

  predicate DrainOp(a: Access) {
    if a.reg == Data then a.Read8? || a.Read16? else Quiet(a) && a.reg != DataLatch
  }

  predicate WellFormed(f: Flat) {
    match f.xfer
    case Closed => true
    case Out(pending) => pending != []
    case In(at, left, part) => left > 0 && |part| < 512 && at + 512 * left <= |f.disk|
  }

  /** How many bytes the open transfer still takes. */
  function Room(f: Flat): nat
    requires WellFormed(f)
  {
    if f.xfer.In? then 512 * f.xfer.left - |f.xfer.part| else 0
  }

  function Feed(f: Flat, bytes: seq<u8>): (g: Flat)
    requires WellFormed(f) && |bytes| <= Room(f)
    ensures WellFormed(g) && Room(g) == Room(f) - |bytes| && (f.xfer.In? ==> !g.xfer.Out?)
    ensures bytes == [] ==> g == f
    decreases |bytes|
  {
    if bytes == [] then f else Feed(FlatPut(f, bytes[0]), bytes[1..])
  }

  lemma {:induction false} FeedAppend(f: Flat, a: seq<u8>, b: seq<u8>)
    requires WellFormed(f) && |a| + |b| <= Room(f)
    ensures Feed(f, a + b) == Feed(Feed(f, a), b)
    decreases |a|
  {
    if a == [] {
      assert a + b == b;
    } else {
      assert (a + b)[1..] == a[1..] + b;
      FeedAppend(FlatPut(f, a[0]), a[1..], b);
    }
  }

  /** `f` (taking part in a write) once `all` bytes of the transfer have arrived in total. */
  function Fed(f: Flat, all: seq<u8>): Flat
    requires WellFormed(f) && f.xfer.In? && |all| <= 512 * f.xfer.left
  {
    var k := |all| / 512;
    Flat(Splice(f.disk, f.xfer.at, all[..512 * k]),
         if k == f.xfer.left then Closed
         else In(f.xfer.at + 512 * k, f.xfer.left - k, all[512 * k..]))
  }

  /** Feeding in closed form: the disk changes by whole sectors only, in order, from the
      start of the transfer; the rest of the bytes wait in the unfinished sector. */
  lemma {:induction false} FeedClosedForm(f: Flat, bytes: seq<u8>)
    requires WellFormed(f) && f.xfer.In? && |bytes| <= Room(f)
    ensures Feed(f, bytes) == Fed(f, f.xfer.part + bytes)
    decreases |bytes|
  {
    hide Fed, FlatPut;
    if bytes == [] {
      FedNothing(f);
    } else {
      var g := FlatPut(f, bytes[0]);
      PutRoom(f, bytes[0]);
      if g.xfer.In? { FeedClosedForm(g, bytes[1..]); }
      FedPut(f, bytes[0], bytes[1..]);
      assert bytes == [bytes[0]] + bytes[1..];
    }
  }

  lemma PutRoom(f: Flat, b: u8)
    requires WellFormed(f) && 0 < Room(f)
    ensures WellFormed(FlatPut(f, b)) && Room(FlatPut(f, b)) == Room(f) - 1
    ensures FlatPut(f, b).xfer.In? || FlatPut(f, b).xfer == Closed
  {
  }

  lemma FedNothing(f: Flat)
    requires WellFormed(f) && f.xfer.In?
    ensures Fed(f, f.xfer.part + []) == f
  {
    var part := f.xfer.part;
    assert part + [] == part && part[..0] == [] && part[0..] == part;
    assert Splice(f.disk, f.xfer.at, []) == f.disk;
  }

  /** `Fed` in one step: put one byte, then let the rest arrive. */
  lemma FedPut(f: Flat, b: u8, rest: seq<u8>)
    requires WellFormed(f) && f.xfer.In? && |rest| + 1 <= Room(f)
    ensures var g := FlatPut(f, b);
            Fed(f, f.xfer.part + ([b] + rest)) == if g.xfer.In? then Fed(g, g.xfer.part + rest) else g
  {
    var part := f.xfer.part + [b];
    assert f.xfer.part + ([b] + rest) == part + rest;
    if |part| == 512 {
      if f.xfer.left > 1 {
        assert [] + rest == rest;
        FedNextSector(f, part, rest);
      } else {
        assert part + rest == part && part[..512] == part;
      }
    }
  }

  /** A completed sector moves the transfer one sector on. */
  lemma FedNextSector(f: Flat, sector: seq<u8>, rest: seq<u8>)
    requires WellFormed(f) && f.xfer.In? && f.xfer.left > 1 && |sector| == 512
    requires |rest| <= 512 * (f.xfer.left - 1)
    ensures Fed(f, sector + rest) ==
            Fed(Flat(Splice(f.disk, f.xfer.at, sector), In(f.xfer.at + 512, f.xfer.left - 1, [])), rest)
  {
    var k := |rest| / 512;
    var all := sector + rest;
    assert |all| / 512 == k + 1;
    assert all[..512 * (k + 1)] == sector + rest[..512 * k];
    assert all[512 * (k + 1)..] == rest[512 * k..];
    SpliceSplice(f.disk, f.xfer.at, sector, rest[..512 * k]);
  }

  lemma SpliceSplice<T>(s: seq<T>, at: nat, t: seq<T>, u: seq<T>)
    requires at + |t| + |u| <= |s|
    ensures Splice(Splice(s, at, t), at + |t|, u) == Splice(s, at, t + u)
  {
  }

  /** One data write: whether the transfer has room for it, and what it leaves. */
  predicate Fed1(d: Drive, s: Step, bytes: seq<u8>)
    requires Inv(d) && OnDisk(d) && WellFormed(FlatOf(d))
  {
    if |bytes| <= Room(FlatOf(d)) then
      !Halts(s.res) && Inv(s.drive) && OnDisk(s.drive) && s.drive.state != ReadReady
      && s.drive.cfg == d.cfg && FlatOf(s.drive) == Feed(FlatOf(d), bytes)
    else Halts(s.res)
  }

  lemma FeedStep(d: Drive, a: Access)
    requires Inv(d) && OnDisk(d) && d.state != ReadReady && FeedOp(a, d.cfg.eightbit)
    ensures WellFormed(FlatOf(d))
    ensures Fed1(d, DriveStep(d, a), BytesIn(a, d.cfg.eightbit))
  {
    if a.reg != Data {
      QuietKeepsTransfer(d, a);
    } else if a.Write8? {
      FeedByte(d, a.b);
    } else if d.cfg.eightbit {
      FeedByte(d, a.w);
      assert a.w % 256 == a.w;
    } else {
      FeedWord(d, a.w);
    }
  }

  lemma FeedWord(d: Drive, w: u16)
    requires Inv(d) && OnDisk(d) && d.state != ReadReady && !d.cfg.eightbit
    ensures WellFormed(FlatOf(d))
    ensures Fed1(d, DataWrite16(d, w), [w % 256, w / 256])
  {
    FeedByte(d, w % 256);
    if d.state == WriteReady {
      FeedByte(DataWrite8(d, w % 256).drive, w / 256);
      FeedAppend2(FlatOf(d), w % 256, w / 256);
    }
  }

  lemma FeedAppend2(f: Flat, x: u8, y: u8)
    requires WellFormed(f) && 1 <= Room(f)
    ensures Feed(f, [x]) == FlatPut(f, x)
    ensures 2 <= Room(f) ==> Feed(f, [x, y]) == Feed(Feed(f, [x]), [y])
  {
    if 2 <= Room(f) {
      assert [x] + [y] == [x, y];
      FeedAppend(f, [x], [y]);
    }
  }

  lemma FeedByte(d: Drive, b: u8)
    requires Inv(d) && OnDisk(d) && d.state != ReadReady
    ensures WellFormed(FlatOf(d))
    ensures Fed1(d, DataWrite8(d, b), [b])
    ensures DataWrite8(d, b).res.Ok? || Halts(DataWrite8(d, b).res)
  {
    if d.state == WriteReady {
      WriteRefines(d, b);
      FeedAppend2(FlatOf(d), b, b);
    }
  }

  /** Whatever other registers the guest touches in between, the drive takes exactly the bytes
      it is sent: the run ends the emulation iff it sends more than the transfer has room for,
      and otherwise the disk is the fed flat disk. */
  lemma {:induction false} WriteStream(d: Drive, ops: seq<Access>)
    requires Inv(d) && OnDisk(d) && d.state != ReadReady
    requires forall a :: a in ops ==> FeedOp(a, d.cfg.eightbit)
    ensures WellFormed(FlatOf(d))
    ensures var r := DriveRun(d, ops);
            var bytes := Sent(ops, d.cfg.eightbit);
            && (!r.halted <==> |bytes| <= Room(FlatOf(d)))
            && (!r.halted ==> Inv(r.drive) && OnDisk(r.drive) && r.drive.state != ReadReady
                              && r.drive.cfg == d.cfg && FlatOf(r.drive) == Feed(FlatOf(d), bytes))
    decreases |ops|
  {
    if ops == [] {
      FeedByte(d, 0);
    } else {
      FeedStep(d, ops[0]);
      var s := DriveStep(d, ops[0]);
      if !Halts(s.res) {
        WriteStream(s.drive, ops[1..]);
        if !DriveRun(d, ops).halted {
          FeedAppend(FlatOf(d), BytesIn(ops[0], d.cfg.eightbit), Sent(ops[1..], d.cfg.eightbit));
        }
      }
    }
  }

  // Draining

  /** The bytes the open transfer still has to hand out. */
  function Pending(f: Flat): seq<u8> { if f.xfer.Out? then f.xfer.pending else [] }

  /** `d'` is what is left of `d` once `out` has been handed to the guest; the disk is as it was. */
  predicate Drained(d: Drive, d': Drive, out: seq<u8>)
    requires Inv(d) && OnDisk(d)
  {
    Inv(d') && OnDisk(d') && d'.state != WriteReady && d'.cfg == d.cfg && d'.disk == d.disk &&
    out + Pending(FlatOf(d')) == Pending(FlatOf(d))
  }

  lemma DrainedTwice(d: Drive, d1: Drive, d2: Drive, a: seq<u8>, b: seq<u8>)
    requires Inv(d) && OnDisk(d) && Drained(d, d1, a) && Drained(d1, d2, b)
    ensures Drained(d, d2, a + b)
  {
    hide FlatOf, OnDisk;
  }

  /** What a byte read owes: the next pending byte, or the end of the run. */
  predicate ByteDrained(d: Drive, s: Step)
    requires Inv(d) && OnDisk(d)
  {
    if Pending(FlatOf(d)) != [] then s.res.Ok? && s.res.value < 256 && Drained(d, s.drive, [s.res.value])
    else Halts(s.res)
  }

  lemma DrainByte(d: Drive)
    requires Inv(d) && OnDisk(d) && d.state != WriteReady
    ensures ByteDrained(d, DataRead8(d))
  {
    if d.state == ReadReady {
      ReadRefines(d);
      TakenIsDrained(d, DataRead8(d));
    }
  }

  lemma TakenIsDrained(d: Drive, s: Step)
    requires Inv(d) && OnDisk(d) && d.state == ReadReady && Takes(d, s)
    ensures ByteDrained(d, s)
  {
    hide Ahead, OnDisk, Inv;
    var p := FlatOf(d).xfer.pending;
    assert [p[0]] + p[1..] == p;
    assert |p| == 1 ==> p[1..] == [];
  }

  /** A 16-bit read is two byte reads, low byte first. */
  lemma DrainWord(d: Drive)
    requires Inv(d) && OnDisk(d) && d.state != WriteReady && !d.cfg.eightbit
    ensures var s := DataRead16(d);
            if 2 <= |Pending(FlatOf(d))| then
              s.res.Ok? && Drained(d, s.drive, [s.res.value % 256, s.res.value / 256])
            else Halts(s.res)
  {
    hide FlatOf, OnDisk, DataRead8, Inv, JoinRead;
    DrainByte(d);
    var s1 := DataRead8(d);
    if s1.res.Ok? && Pending(FlatOf(d)) != [] {
      DrainByte(s1.drive);
      JoinDrains(d, s1, DataRead8(s1.drive));
    }
  }

  lemma JoinDrains(d: Drive, s1: Step, s2: Step)
    requires Inv(d) && OnDisk(d) && s1.res.Ok? && s1.res.value < 256 && Drained(d, s1.drive, [s1.res.value])
    ensures |Pending(FlatOf(d))| == 1 + |Pending(FlatOf(s1.drive))|
    ensures Halts(JoinRead(s1, s2).res) <==> Halts(s2.res)
    ensures s2.res.Ok? && s2.res.value < 256 && Drained(s1.drive, s2.drive, [s2.res.value]) ==>
              var s := JoinRead(s1, s2);
              s.res.Ok? && Drained(d, s.drive, [s.res.value % 256, s.res.value / 256])
  {
    hide FlatOf, OnDisk;
    if s2.res.Ok? && s2.res.value < 256 && Drained(s1.drive, s2.drive, [s2.res.value]) {
      DrainedTwice(d, s1.drive, s2.drive, [s1.res.value], [s2.res.value]);
      assert [s1.res.value] + [s2.res.value] == [s1.res.value, s2.res.value];
      WordBytes(s1.res.value, s2.res.value);
    }
  }

  lemma WordBytes(lo: u8, hi: u8)
    ensures (lo % 256 + hi % 256 * 256) % 256 == lo && (lo % 256 + hi % 256 * 256) / 256 == hi
  {
  }

  function Width(a: Access, eightbit: bool): nat {
    if a.reg != Data then 0 else if a.Read8? || eightbit then 1 else 2
  }

  /** One read of n bytes: whether the transfer has that many left, and what it hands out. */
  predicate Drained1(d: Drive, s: Step, bytes: seq<u8>, n: nat)
    requires Inv(d) && OnDisk(d)
  {
    if n <= |Pending(FlatOf(d))| then !Halts(s.res) && Drained(d, s.drive, bytes) && |bytes| == n
    else Halts(s.res)
  }

  lemma DrainData8(d: Drive, a: Access)
    requires Inv(d) && OnDisk(d) && d.state != WriteReady && a == Read8(Data)
    ensures Drained1(d, DriveStep(d, a), BytesOut(a, DriveStep(d, a).res, d.cfg.eightbit), 1)
  {
    hide FlatOf, OnDisk, DataRead8, Inv;
    DrainByte(d);
  }

  lemma DrainData16(d: Drive, a: Access)
    requires Inv(d) && OnDisk(d) && d.state != WriteReady && a == Read16(Data)
    ensures Drained1(d, DriveStep(d, a), BytesOut(a, DriveStep(d, a).res, d.cfg.eightbit), Width(a, d.cfg.eightbit))
  {
    hide FlatOf, OnDisk, DataRead8, Inv, JoinRead;
    var s := DataRead16(d);
    if d.cfg.eightbit {
      DrainByte(d);
      assert Drained1(d, s, BytesOut(a, s.res, true), 1);
    } else {
      DrainWord(d);
      assert Drained1(d, s, BytesOut(a, s.res, false), 2);
    }
    assert DriveStep(d, a) == s;
  }

  lemma DrainStep(d: Drive, a: Access)
    requires Inv(d) && OnDisk(d) && d.state != WriteReady && DrainOp(a)
    ensures Drained1(d, DriveStep(d, a), BytesOut(a, DriveStep(d, a).res, d.cfg.eightbit), Width(a, d.cfg.eightbit))
  {
    if a.reg != Data { QuietKeepsTransfer(d, a); }
    else if a.Read8? { DrainData8(d, a); }
    else { DrainData16(d, a); }
  }

  function Wanted(ops: seq<Access>, eightbit: bool): nat {
    if ops == [] then 0 else Width(ops[0], eightbit) + Wanted(ops[1..], eightbit)
  }

  /** The reading counterpart: the guest gets exactly the next bytes of the transfer, in order,
      and the emulation ends iff it asks for more than there are. */
  lemma {:induction false} ReadStream(d: Drive, ops: seq<Access>)
    requires Inv(d) && OnDisk(d) && d.state != WriteReady
    requires forall a :: a in ops ==> DrainOp(a)
    ensures var r := DriveRun(d, ops);
            && |r.results| <= |ops|
            && (!r.halted <==> Wanted(ops, d.cfg.eightbit) <= |Pending(FlatOf(d))|)
            && (!r.halted ==> Drained(d, r.drive, Got(ops, r.results, d.cfg.eightbit))
                              && |Got(ops, r.results, d.cfg.eightbit)| == Wanted(ops, d.cfg.eightbit))
    decreases |ops|
  {
    if ops == [] {
      assert [] + Pending(FlatOf(d)) == Pending(FlatOf(d));
    } else {
      DrainStep(d, ops[0]);
      var s := DriveStep(d, ops[0]);
      if !Halts(s.res) {
        ReadStream(s.drive, ops[1..]);
        var rest := DriveRun(s.drive, ops[1..]);
        GotCons(ops, s.res, rest.results, d.cfg.eightbit);
        if !rest.halted {
          DrainedTwice(d, s.drive, rest.drive, BytesOut(ops[0], s.res, d.cfg.eightbit),
                       Got(ops[1..], rest.results, d.cfg.eightbit));
        }
      }
    }
  }

  lemma GotCons(ops: seq<Access>, r: Res, rest: seq<Res>, eightbit: bool)
    requires ops != [] && |rest| < |ops|
    ensures Got(ops, [r] + rest, eightbit) == BytesOut(ops[0], r, eightbit) + Got(ops[1..], rest, eightbit)
  {
    assert ([r] + rest)[1..] == rest;
  }
}
