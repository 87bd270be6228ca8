/** The emulated ATA-2 drive and controller as a pure transition system.  The classes in
    IdeDevice.dfy are proved to take exactly these steps; the theorems about whole runs
    (IdeTheorems.dfy) are about this system. */
module Ide {
  import opened Prim

  // ---------------------------------------------------------------- data model

  datatype Reg =
    | Data | Error | Features | SectorCount | SectorNo | CylinderLo | CylinderHi | DeviceHead
    | Status | Command | AltStatus | DevControl | DataLatch | Lba0 | Lba1 | Lba2 | Lba3

  datatype DriveState = Idle | ReadReady | ReadAsyncLoad | WriteReady | WriteAsyncFlush

  /** The eight status bits, BSY (bit 7) first. */
  datatype StatusBits = StatusBits(bsy: bool, drdy: bool, df: bool, dsc: bool,
                                   drq: bool, corr: bool, idx: bool, err: bool)

  function Flag(b: bool): nat { if b then 1 else 0 }

  function StatusByte(s: StatusBits): u8 {
    128 * Flag(s.bsy) + 64 * Flag(s.drdy) + 32 * Flag(s.df) + 16 * Flag(s.dsc) +
    8 * Flag(s.drq) + 4 * Flag(s.corr) + 2 * Flag(s.idx) + Flag(s.err)
  }

  datatype Regs = Regs(error: u8, feature: u8, sectorCount: u8,
                       lba0: u8, lba1: u8, lba2: u8, lba3: u8,
                       status: StatusBits, srst: bool, nein: bool)

  /** `transferMode` is kept as the byte it was set from; only `IsDma` looks at it. */
  datatype Config = Config(eightbit: bool, multiSect: u8, transferMode: u8)

  /** Single-word DMA is 0b00010xxx up to 0b0001xxxx (three leading zeros), multi-word DMA
      0b001xxxxx (two leading zeros). */
  predicate IsDma(mode: u8) { 16 <= mode < 64 }

  /** `disk` is the medium, `pos` its seek cursor; `identify` the 512 bytes that IDENTIFY
      DEVICE returns; `buf` and `idx` the I/O buffer. */
  datatype Drive = Drive(disk: seq<u8>, pos: nat, identify: seq<u8>,
                         state: DriveState, remaining: nat,
                         buf: seq<u8>, idx: nat, reg: Regs, cfg: Config)

  datatype FatalCause =
    | WrongState | ReadPastEnd | WritePastEnd | BadOffset | IoError | MultiSector | BadFeature

  datatype Severity = SevError | SevWarn | SevInfo

  /** `Panic` stands for a failed assert! or an arithmetic underflow, which abort the emulator. */
  datatype Exn =
    | Fatal(cause: FatalCause) | Violation(severity: Severity) | Unimplemented | Panic

  datatype Res = Ok(value: u16) | Err(exn: Exn)

  /** What `MemException::resolve` turns into the end of the emulation. */
  predicate Halts(r: Res) {
    r.Err? && !(r.exn.Violation? && r.exn.severity != SevError)
  }

  /** What a step does to the two lines shared by both drives: the level it leaves them at,
      or None when it does not touch them. */
  datatype Effect = Effect(irq: Option<bool>, dmarq: Option<bool>)

  const QUIET := Effect(None, None)
  const PULSE := Effect(Some(true), None)

  function Then(a: Effect, b: Effect): Effect {
    Effect(if b.irq.Some? then b.irq else a.irq, if b.dmarq.Some? then b.dmarq else a.dmarq)
  }

  datatype Step = Step(drive: Drive, res: Res, fx: Effect)

  // ---------------------------------------------------------------- drive steps

  function SetBusyDrq(d: Drive, bsy: bool, drq: bool): Drive {
    d.(reg := d.reg.(status := d.reg.status.(bsy := bsy, drq := drq)))
  }

  /** The transfer is over: idle, one interrupt, DMA request dropped. */
  function FinishRead(d: Drive, v: u8): Step {
    Step(d.(state := Idle,
            reg := d.reg.(status := d.reg.status.(drdy := true, drq := false, bsy := false))),
         Ok(v), Effect(Some(true), Some(false)))
  }

  /** The next sector of a read comes into the buffer. */
  function LoadNext(d: Drive, v: u8): Step {
    if d.pos + |d.buf| > |d.disk| then Step(d, Err(Fatal(IoError)), QUIET)
    else
      Step(SetBusyDrq(d.(buf := d.disk[d.pos..d.pos + |d.buf|], pos := d.pos + |d.buf|,
                         idx := 0, state := ReadReady), false, true),
           Ok(v), if IsDma(d.cfg.transferMode) then QUIET else PULSE)
  }

  /** One byte out of the buffer; the last byte of a sector ends the transfer or loads the
      next sector. */
  function DataRead8(d: Drive): Step {
    if d.state != ReadReady then Step(d, Err(Fatal(WrongState)), QUIET)
    else if d.idx >= |d.buf| then Step(d, Err(Fatal(ReadPastEnd)), QUIET)
    else
      var v := d.buf[d.idx];
      if d.idx + 1 < 512 then Step(d.(idx := d.idx + 1), Ok(v), QUIET)
      else if d.remaining == 0 then Step(d, Err(Panic), QUIET)
      else
        var d1 := d.(idx := d.idx + 1, remaining := d.remaining - 1);
        if d1.remaining == 0 then FinishRead(d1, v) else LoadNext(d1, v)
  }

  /** The full buffer goes to the medium; the last sector ends the transfer. */
  function FlushSector(d: Drive): Step {
    if d.remaining == 0 then Step(d, Err(Panic), QUIET)
    else if d.pos + |d.buf| > |d.disk| then Step(d, Err(Fatal(IoError)), QUIET)
    else
      var d1 := SetBusyDrq(d.(disk := Splice(d.disk, d.pos, d.buf), pos := d.pos + |d.buf|,
                              idx := 0, state := WriteReady, remaining := d.remaining - 1),
                           false, true);
      if d1.remaining == 0 then
        Step(d1.(state := Idle, reg := d1.reg.(status := d1.reg.status.(drdy := true, drq := false))),
             Ok(0), Effect(Some(true), Some(false)))
      else
        Step(d1, Ok(0), if IsDma(d1.cfg.transferMode) then QUIET else PULSE)
  }

  /** One byte into the buffer; the last byte of a sector flushes the sector to the medium. */
  function DataWrite8(d: Drive, v: u8): Step {
    if d.state != WriteReady then Step(d, Err(Fatal(WrongState)), QUIET)
    else if d.idx >= |d.buf| then Step(d, Err(Fatal(WritePastEnd)), QUIET)
    else
      var d1 := d.(buf := d.buf[d.idx := v], idx := d.idx + 1);
      if d1.idx < 512 then Step(d1, Ok(0), QUIET) else FlushSector(d1)
  }

  const NUM_HEADS := 16
  const NUM_SECTORS := 63

  /** The block offset the address registers stand for; None for the addresses that
      `get_sector_offset` rejects. */
  function OffsetOf(r: Regs, diskLen: nat): Option<int> {
    if Bit(r.lba3, 6) then
      Some((r.lba3 % 16) * 0x100_0000 + r.lba2 * 0x1_0000 + r.lba1 * 0x100 + r.lba0)
    else
      var sector := r.lba0;
      var cyl := r.lba2 * 256 + r.lba1;
      var head := r.lba3 % 16;
      var totalCyls := diskLen / (NUM_HEADS * NUM_SECTORS * 512);
      if sector < NUM_SECTORS || cyl < totalCyls || head < NUM_HEADS then None
      else Some((cyl * NUM_HEADS + head) * NUM_SECTORS + sector)
  }

  function SectorOffset(d: Drive): Option<int> { OffsetOf(d.reg, |d.disk|) }

  /** A sector count register of zero asks for 256 sectors. */
  function Sectors(count: u8): nat { if count == 0 then 256 else count }

  function StartRead(d: Drive, fx: Effect): Step {
    match SectorOffset(d)
    case None => Step(d, Err(Fatal(BadOffset)), fx)
    case Some(offset) =>
      if offset * 512 + 512 > |d.disk| then Step(d, Err(Fatal(IoError)), fx)
      else
        Step(d.(buf := d.disk[offset * 512..offset * 512 + 512], pos := offset * 512 + 512,
                remaining := Sectors(d.reg.sectorCount), idx := 0, state := ReadReady,
                reg := d.reg.(status := d.reg.status.(bsy := false, dsc := true, drdy := true, drq := true))),
             Ok(0), Then(fx, PULSE))
  }

  function StartWrite(d: Drive, fx: Effect): Step {
    match SectorOffset(d)
    case None => Step(d, Err(Fatal(BadOffset)), fx)
    case Some(offset) =>
      Step(d.(pos := offset * 512,
              remaining := Sectors(d.reg.sectorCount), idx := 0, state := WriteReady,
              reg := d.reg.(status := d.reg.status.(bsy := false, dsc := true, drdy := false, drq := true))),
           Ok(0), Then(fx, PULSE))
  }

  function NotBusy(d: Drive): Drive {
    d.(reg := d.reg.(status := d.reg.status.(bsy := false)))
  }

  function Ready(d: Drive): Drive {
    d.(reg := d.reg.(status := d.reg.status.(bsy := false, drdy := true, dsc := true, drq := false)))
  }

  /** READ/WRITE MULTIPLE need a block size of exactly one sector. */
  function CheckMultiple(d: Drive): Res {
    if d.cfg.multiSect == 0 then Err(Violation(SevError))
    else if d.cfg.multiSect != 1 then Err(Fatal(MultiSector))
    else Ok(0)
  }

  function MaxLba(diskLen: nat): nat {
    var sectors := diskLen / 512;
    var last := if sectors == 0 then 0 else sectors - 1;
    if last < 0x0fff_ffff then last else 0x0fff_ffff
  }

  /** The commands that open a data transfer; `d` is already marked busy. */
  function TransferCmd(d: Drive, cmd: u8): Step {
    if cmd == 0xec then                                             // IDENTIFY DEVICE
      Step(SetBusyDrq(d.(buf := d.identify, idx := 0, state := ReadReady, remaining := 1), false, true),
           Ok(0), PULSE)
    else if cmd == 0xc4 then                                        // READ MULTIPLE
      if CheckMultiple(d).Err? then Step(d, CheckMultiple(d), QUIET) else StartRead(d, QUIET)
    else if cmd == 0xc8 || cmd == 0xc9 then                         // READ DMA
      if !IsDma(d.cfg.transferMode) then Step(d, Err(Violation(SevError)), QUIET)
      else StartRead(d, Effect(None, Some(true)))
    else if cmd == 0x20 || cmd == 0x21 then StartRead(d, QUIET)     // READ SECTORS
    else if cmd == 0xc5 then                                        // WRITE MULTIPLE
      if CheckMultiple(d).Err? then Step(d, CheckMultiple(d), QUIET) else StartWrite(d, QUIET)
    else if cmd == 0xca || cmd == 0xcb then                         // WRITE DMA
      if !IsDma(d.cfg.transferMode) then Step(d, Err(Violation(SevError)), QUIET)
      else StartWrite(d, Effect(None, Some(true)))
    else StartWrite(d, QUIET)                                       // WRITE SECTORS
  }

  predicate IsTransferCmd(cmd: u8) {
    cmd == 0xec || cmd == 0xc4 || cmd == 0xc8 || cmd == 0xc9 || cmd == 0x20 || cmd == 0x21 ||
    cmd == 0xc5 || cmd == 0xca || cmd == 0xcb || cmd == 0x30 || cmd == 0x31
  }

  function SetFeatures(d: Drive): Step {
    if d.reg.feature == 0x01 then Step(NotBusy(d.(cfg := d.cfg.(eightbit := true))), Ok(0), QUIET)
    else if d.reg.feature == 0x03 then
      Step(NotBusy(d.(cfg := d.cfg.(transferMode := d.reg.sectorCount))), Ok(0), QUIET)
    else if d.reg.feature == 0x81 then Step(NotBusy(d.(cfg := d.cfg.(eightbit := false))), Ok(0), QUIET)
    else Step(d, Err(Fatal(BadFeature)), QUIET)
  }

  /** `r` with the low 28 bits of a block address in its address registers; the upper half of
      the device/head register stays. */
  function AddressRegs(r: Regs, lba: nat): (r': Regs)
    ensures r'.status == r.status && r'.lba3 / 16 == r.lba3 / 16
  {
    r.(lba0 := lba % 256, lba1 := lba / 0x100 % 256, lba2 := lba / 0x1_0000 % 256,
       lba3 := r.lba3 / 16 * 16 + lba / 0x100_0000 % 16)
  }

  function NativeMax(d: Drive): Step {
    Step(Ready(d.(reg := AddressRegs(d.reg, MaxLba(|d.disk|)))), Ok(0), PULSE)
  }

  /** The commands without a data transfer, and the unknown ones. */
  function ControlCmd(d: Drive, cmd: u8): Step {
    if cmd == 0xe0 || cmd == 0x94 then Step(NotBusy(d), Ok(0), QUIET)   // STANDBY IMMEDIATE
    else if cmd == 0xc6 then                                        // SET MULTIPLE MODE
      var d1 := d.(cfg := d.cfg.(multiSect := d.reg.sectorCount));
      if d1.cfg.multiSect > 1 then Step(d1, Err(Fatal(MultiSector)), QUIET)
      else Step(NotBusy(d1), Ok(0), QUIET)
    else if cmd == 0xef then SetFeatures(d)                         // SET FEATURES
    else if cmd == 0xe7 then                                        // FLUSH CACHE
      Step(d.(reg := d.reg.(status := d.reg.status.(bsy := false, drdy := true, drq := false))), Ok(0), QUIET)
    else if cmd == 0x99 || cmd == 0xe6 then Step(NotBusy(d), Ok(0), PULSE)   // SLEEP
    else if cmd == 0xf8 then NativeMax(d)                           // READ NATIVE MAX ADDRESS
    else if cmd == 0x10 || cmd == 0xf9 || cmd == 0x91 then
      Step(Ready(d), Ok(0), PULSE)              // RECALIBRATE, SET MAX ADDRESS, INITIALIZE PARAMETERS
    else
      Step(d.(reg := d.reg.(status := d.reg.status.(bsy := false, err := true), error := 1)),
           Err(Violation(SevWarn)), QUIET)
  }

  function ExecCmd(d: Drive, cmd: u8): Step {
    if d.reg.status.bsy then Step(d, Err(Violation(SevWarn)), QUIET)
    else
      var busy := d.(reg := d.reg.(status := d.reg.status.(bsy := true, err := false), error := 0));
      if IsTransferCmd(cmd) then TransferCmd(busy, cmd) else ControlCmd(busy, cmd)
  }

  // ---------------------------------------------------------------- register accesses

  datatype Access =
    | Read8(reg: Reg) | Read16(reg: Reg)
    | Write8(reg: Reg, b: u8) | Write16(reg: Reg, w: u16)

  predicate IsHead(r: Reg) { r == DeviceHead || r == Lba3 }

  function RegRead(d: Drive, r: Reg): Step {
    match r
    case Data => DataRead8(d)
    case Error | Features => Step(d, Ok(d.reg.error), QUIET)
    case SectorCount => Step(d, Ok(d.reg.sectorCount), QUIET)
    case SectorNo | Lba0 => Step(d, Ok(d.reg.lba0), QUIET)
    case CylinderLo | Lba1 => Step(d, Ok(d.reg.lba1), QUIET)
    case CylinderHi | Lba2 => Step(d, Ok(d.reg.lba2), QUIET)
    case DeviceHead | Lba3 => Step(d, Ok(d.reg.lba3), QUIET)
    case Status | Command => Step(d, Ok(StatusByte(d.reg.status)), Effect(Some(false), None))
    case AltStatus | DevControl => Step(d, Ok(StatusByte(d.reg.status)), QUIET)
    case DataLatch => Step(d, Err(Unimplemented), QUIET)
  }

  /** A write to a register that only stores (the others stay as they are here). */
  function StoreReg(regs: Regs, r: Reg, v: u8): Regs {
    match r
    case Features | Error => regs.(feature := v)
    case SectorCount => regs.(sectorCount := v)
    case SectorNo | Lba0 => regs.(lba0 := v)
    case CylinderLo | Lba1 => regs.(lba1 := v)
    case CylinderHi | Lba2 => regs.(lba2 := v)
    case DeviceHead | Lba3 => regs.(lba3 := v)
    case DevControl | AltStatus => regs.(srst := Bit(v, 2), nein := Bit(v, 1))
    case _ => regs
  }

  function RegWrite(d: Drive, r: Reg, v: u8): Step {
    if r == Data then DataWrite8(d, v)
    else if r == Command || r == Status then ExecCmd(d, v)
    else if r == DataLatch then Step(d, Err(Unimplemented), QUIET)
    else Step(d.(reg := StoreReg(d.reg, r, v)), Ok(0), QUIET)
  }

  /** A 16-bit access to Data moves two bytes, low byte first, or one in 8-bit mode. */
  function DataRead16(d: Drive): Step {
    var s1 := DataRead8(d);
    if s1.res.Err? || d.cfg.eightbit then s1 else JoinRead(s1, DataRead8(s1.drive))
  }

  function JoinRead(s1: Step, s2: Step): Step
    requires s1.res.Ok?
  {
    Step(s2.drive,
         if s2.res.Err? then s2.res else Ok(s1.res.value % 256 + s2.res.value % 256 * 256),
         Then(s1.fx, s2.fx))
  }

  function DataWrite16(d: Drive, w: u16): Step {
    if d.cfg.eightbit then
      if w > 0xff then Step(d, Err(Violation(SevError)), QUIET) else DataWrite8(d, w)
    else
      var s1 := DataWrite8(d, w % 256);
      if s1.res.Err? then s1
      else
        var s2 := DataWrite8(s1.drive, w / 256);
        s2.(fx := Then(s1.fx, s2.fx))
  }

  /** One access to the registers of one drive. */
  function DriveStep(d: Drive, a: Access): Step {
    match a
    case Read8(r) => RegRead(d, r)
    case Read16(r) => if r == Data then DataRead16(d) else RegRead(d, r)
    case Write8(r, b) => RegWrite(d, r, b)
    case Write16(r, w) => if r == Data then DataWrite16(d, w) else RegWrite(d, r, w % 256)
  }

  // ---------------------------------------------------------------- controller

  /** `second` says which of the two drives is selected. */
  datatype Ctl = Ctl(second: bool, ide0: Option<Drive>, ide1: Option<Drive>, irq: bool, dmarq: bool)

  /** Which drive an access goes to: writing the device/head register selects first. */
  function SelectAfter(second: bool, a: Access): bool {
    if a.Write8? && IsHead(a.reg) then Bit(a.b, 4)
    else if a.Write16? && IsHead(a.reg) then Bit(a.w % 256, 4)
    else second
  }

  function DriveOf(c: Ctl, second: bool): Option<Drive> { if second then c.ide1 else c.ide0 }

  function Level(old_: bool, fx: Option<bool>): bool { if fx.Some? then fx.value else old_ }

  /** The controller after the selected drive took the step `s`. */
  function Deliver(c: Ctl, s: Step): (Ctl, Res) {
    var c1 := c.(irq := Level(c.irq, s.fx.irq), dmarq := Level(c.dmarq, s.fx.dmarq));
    (if c.second then c1.(ide1 := Some(s.drive)) else c1.(ide0 := Some(s.drive)), s.res)
  }

  /** One access through the controller.  With no drive on the selected position it only
      draws an Info-level violation. */
  function Perform(c: Ctl, a: Access): (Ctl, Res) {
    var c1 := c.(second := SelectAfter(c.second, a));
    match DriveOf(c1, c1.second)
    case None => (c1, Err(Violation(SevInfo)))
    case Some(d) => Deliver(c1, DriveStep(d, a))
  }
}
