/** The bootloader's PIO driver with its cache.  Its register accesses are steps of the
    controller of Ide.dfy, which IdeDevice.dfy proves the emulated objects take.  A read delivers
    exactly the sector on the disk, whatever transfer was left open before, and never draws a
    result that ends the emulation. */
module AtaDriver {
  import opened Prim
  import opened Ide
  import opened IdeTheorems
  import opened IdeRuns
  import C = AtaCache

  // bits 7, 3 and 0 of the status byte
  predicate Bsy(status: u8) { status / 128 == 1 }
  predicate Drq(status: u8) { status / 8 % 2 == 1 }
  predicate ErrBit(status: u8) { status % 2 == 1 }

  /** The bits the driver tests are the ones the drive means. */
  lemma StatusBitsOf(s: StatusBits)
    ensures Bsy(StatusByte(s)) == s.bsy && Drq(StatusByte(s)) == s.drq && ErrBit(StatusByte(s)) == s.err
  {
    SumBits(Flag(s.bsy), Flag(s.drdy), Flag(s.df), Flag(s.dsc), Flag(s.drq), Flag(s.corr), Flag(s.idx), Flag(s.err));
  }

  lemma SumBits(b7: nat, b6: nat, b5: nat, b4: nat, b3: nat, b2: nat, b1: nat, b0: nat)
    requires b7 < 2 && b6 < 2 && b5 < 2 && b4 < 2 && b3 < 2 && b2 < 2 && b1 < 2 && b0 < 2
    ensures var v := 128 * b7 + 64 * b6 + 32 * b5 + 16 * b4 + 8 * b3 + 4 * b2 + 2 * b1 + b0;
            v / 128 == b7 && v / 8 % 2 == b3 && v % 2 == b0
  {
    var v := 128 * b7 + 64 * b6 + 32 * b5 + 16 * b4 + 8 * b3 + 4 * b2 + 2 * b1 + b0;
    assert v / 8 == 16 * b7 + 8 * b6 + 4 * b5 + 2 * b4 + b3;
  }

  class Driver {
    /** The controller at the other end of the registers. */
    var ctl: Ctl
    const cachedata: array<u8>
    const cacheaddr: array<u32>
    const cachetick: array<u32>
    const buff: array<u8>
    var cacheticks: u32
    var drivetype: u8
    var readcommand: u8
    var sectorcount: u8

    ghost const Repr: set<object> := {this, cachedata, cacheaddr, cachetick, buff}

    constructor (ctl: Ctl)
      ensures Wired() && this.ctl == ctl && fresh(Repr)
      ensures drivetype == 0 && readcommand == 0x21 && sectorcount == 1
    {
      this.ctl := ctl;
      cachedata := new u8[8192](_ => 0);
      cacheaddr := new u32[8](_ => 0);
      cachetick := new u32[8](_ => 0);
      buff := new u8[1024](_ => 0);
      cacheticks := 0;
      drivetype, readcommand, sectorcount := 0, 0x21, 1;
    }

    /** The sizes and the distinctness of the buffers. */
    ghost predicate Wired() {
      && cachedata.Length == 8192 && cacheaddr.Length == 8 && cachetick.Length == 8 && buff.Length == 1024
      && cacheaddr != cachetick && cachedata != buff
    }

    /** There is a drive at position 0. */
    ghost predicate Attached() reads this`ctl { ctl.ide0.Some? }

    /** ... and it is selected. */
    ghost predicate On() reads this`ctl { Attached() && !ctl.second }

    /** The drive at position 0. */
    ghost function D(): Drive
      requires Attached()
      reads this`ctl
    {
      ctl.ide0.value
    }

    /** The drive is in a sound state (any transfer may be open) and moves 16-bit words. */
    ghost predicate DriveOk()
      reads this`ctl
    {
      Attached() && Inv(D()) && !D().cfg.eightbit
    }

    method OutByte(r: Reg, b: u8)
      requires Attached() && (if IsHead(r) then !Bit(b, 4) else !ctl.second)
      requires !Halts(RegWrite(D(), r, b).res)
      modifies this`ctl
      ensures On() && D() == RegWrite(old(D()), r, b).drive
    {
      var (c, res) := Perform(ctl, Write8(r, b));
      ctl := c;
    }

    method InByte(r: Reg) returns (b: u8)
      requires On() && IsStatus(r)
      modifies this`ctl
      ensures On() && D() == old(D()) && b == StatusByte(D().reg.status)
    {
      var (c, res) := Perform(ctl, Read8(r));
      ctl := c;
      b := res.value;
    }

    method InWord() returns (w: u16)
      requires On() && !Halts(DataRead16(D()).res)
      modifies this`ctl
      ensures On() && D() == DataRead16(old(D())).drive && Ok(w) == DataRead16(old(D())).res
    {
      var (c, res) := Perform(ctl, Read16(Data));
      ctl := c;
      w := res.value;
    }

    /** Sixteen reads of the alternate status register. */
    method Delay400ns()
      requires On()
      modifies this`ctl
      ensures On() && D() == old(D())
    {
      for i := 0 to 16
        invariant On() && D() == old(D())
      {
        var _ := InByte(AltStatus);
      }
    }

    /** Spins until the drive is not busy; with this drive the first look is enough. */
    method WaitNotBusy()
      requires On() && Inv(D())
      modifies this`ctl
      ensures On() && D() == old(D())
    {
      var busy := true;
      while busy
        invariant On() && D() == old(D())
        decreases busy
      {
        var status := InByte(AltStatus);
        StatusBitsOf(D().reg.status);
        busy := Bsy(status);
      }
    }

    method OutTask(r: Reg, b: u8)
      requires Attached() && (if IsHead(r) then !Bit(b, 4) else !ctl.second)
      requires r != Data && r != Command && r != Status && r != DataLatch
      modifies this`ctl
      ensures On() && D() == old(D()).(reg := StoreReg(old(D()).reg, r, b))
    {
      OutByte(r, b);
    }

    method InTask(r: Reg) returns (b: u8)
      requires On() && (r == SectorCount || r == SectorNo)
      modifies this`ctl
      ensures On() && D() == old(D())
      ensures b == if r == SectorCount then D().reg.sectorCount else D().reg.lba0
    {
      var (c, res) := Perform(ctl, Read8(r));
      ctl := c;
      b := res.value;
    }

    /** Selects device 0 in LBA mode, with the top bits of the block number. */
    method SelectDevice(head: u8)
      requires Attached() && head / 16 == 14
      modifies this`ctl
      ensures On() && D() == old(D()).(reg := old(D()).reg.(lba3 := head, feature := 0, srst := false, nein := true))
    {
      ghost var d := D();
      OutTask(DeviceHead, head);
      Delay400ns();
      assert D() == d.(reg := d.reg.(lba3 := head));
      OutTask(Features, 0);
      assert D() == d.(reg := d.reg.(lba3 := head, feature := 0));
      OutTask(DevControl, 0x0a);
    }

    method AddressBlock(sector: u32, count: u8)
      requires On()
      modifies this`ctl
      ensures On()
      ensures D() == old(D()).(reg := old(D()).reg.(sectorCount := count, lba0 := sector % 256,
                                                    lba1 := sector / 0x100 % 256, lba2 := sector / 0x1_0000 % 256))
    {
      ghost var d := D();
      OutTask(SectorCount, count);
      assert D() == d.(reg := d.reg.(sectorCount := count));
      OutTask(SectorNo, sector % 256);
      assert D() == d.(reg := d.reg.(sectorCount := count, lba0 := sector % 256));
      OutTask(CylinderLo, sector / 0x100 % 256);
      OutTask(CylinderHi, sector / 0x1_0000 % 256);
    }

    /** The register writes that address `count` sectors at `sector`; only registers change. */
    method ProgramRead(sector: u32, count: u8)
      requires DriveOk() && sector < 0x1000_0000
      modifies this`ctl
      ensures On() && Inv(D()) && D() == old(D()).(reg := D().reg)
      ensures AddressedAt(D().reg, sector, Sectors(count))
    {
      SplitAddress(sector);
      SelectDevice(0xe0 + sector / 0x100_0000);
      AddressBlock(sector, count);
    }

    /** Gives a read command and waits for its data, dropping whatever transfer was open. */
    method IssueRead(sector: u32, count: u8, cmd: u8) returns (status: u8)
      requires DriveOk() && sector < 0x1000_0000 && 512 * (sector + Sectors(count)) <= |D().disk|
      requires cmd == 0x21 || (cmd == 0xc4 && D().cfg.multiSect == 1)
      modifies this`ctl
      ensures On() && Streams(D()) && D().disk == old(D().disk) && D().cfg == old(D().cfg)
      ensures Rest(D()) == SectorBytes(old(D().disk), sector, Sectors(count))
      ensures Drq(status) && !Bsy(status) && !ErrBit(status)
    {
      ProgramRead(sector, count);
      CommandOpensRead(D(), cmd, sector, Sectors(count));
      OutByte(Command, cmd);
      Delay400ns();
      Delay400ns();
      WaitNotBusy();
      Delay400ns();
      Delay400ns();
      status := InByte(Status);
      StatusBitsOf(D().reg.status);
    }

    /** One word from the data register to memory, low byte first. */
    method MoveWord(dst: array<u8>, at: nat)
      requires On() && Streams(D()) && |Rest(D())| >= 2 && at + 2 <= dst.Length
      modifies this`ctl, dst
      ensures On() && Streams(D()) && D().disk == old(D().disk) && D().cfg == old(D().cfg)
      ensures Rest(D()) == old(Rest(D()))[2..]
      ensures dst[at] == old(Rest(D()))[0] && dst[at + 1] == old(Rest(D()))[1]
      ensures forall k :: 0 <= k < dst.Length && k != at && k != at + 1 ==> dst[k] == old(dst[k])
    {
      DrainWord(D());
      ghost var rest := Rest(D());
      var w := InWord();
      assert rest == [w % 256, w / 256] + Rest(D());
      dst[at], dst[at + 1] := w % 256, w / 256;
    }

    /** One block, word by word, from the data register to memory. */
    method TransferBlock(dst: array<u8>, at: nat)
      requires On() && Streams(D()) && C.BlockBytes(drivetype == 1) <= |Rest(D())|
      requires at + C.BlockBytes(drivetype == 1) <= dst.Length
      modifies this`ctl, dst
      ensures On() && Streams(D()) && D().disk == old(D().disk) && D().cfg == old(D().cfg)
      ensures dst[..] == Splice(old(dst[..]), at, old(Rest(D()))[..C.BlockBytes(drivetype == 1)])
    {
      hide Rest, Streams, Inv, Splice;
      var words := if drivetype == 1 then 512 else 256;
      assert 2 * words == C.BlockBytes(drivetype == 1);
      ghost var p, before := Rest(D()), dst[..];
      var n := 0;
      while n < words
        invariant n <= words && On() && Streams(D()) && D().disk == old(D().disk) && D().cfg == old(D().cfg)
        invariant Rest(D()) == p[2 * n..]
        invariant forall k :: 0 <= k < dst.Length ==> dst[k] == if at <= k < at + 2 * n then p[k - at] else before[k]
      {
        MoveWord(dst, at + 2 * n);
        n := n + 1;
      }
      SpliceByElements(dst[..], before, at, p[..2 * words]);
    }

    // -------------------------------------------------------------- cache

    ghost function CacheAbs(): C.Cache
      requires Wired()
      reads this`cacheticks, cachedata, cacheaddr, cachetick
    {
      C.Cache(cacheaddr[..], cachetick[..], cachedata[..], cacheticks)
    }

    predicate Wide() reads this`drivetype { drivetype == 1 }

    /** Type 0 drives are read sector by sector, type 1 drives in pairs with READ MULTIPLE. */
    ghost predicate Mode()
      requires Attached()
      reads this
    {
      || (drivetype == 0 && readcommand == 0x21 && sectorcount == 1)
      || (drivetype == 1 && readcommand == 0xc4 && sectorcount == 2 && D().cfg.multiSect == 1)
    }

    ghost predicate Valid()
      reads Repr
    {
      && Wired() && DriveOk() && Mode()
      && C.Coherent(CacheAbs(), D().disk, Wide())
    }

    /** The first slot that holds block `key`. */
    method FindSlot(key: u32) returns (slot: Option<nat>)
      requires Wired()
      ensures slot == C.Lookup(CacheAbs(), key)
    {
      if key != 0 {
        for i := 0 to 8
          invariant C.FirstWith(cacheaddr[..], key, 0) == C.FirstWith(cacheaddr[..], key, i)
        {
          if cacheaddr[i] == key { return Some(i); }
        }
      }
      return None;
    }

    /** The first slot with the least tick. */
    method LeastTick() returns (slot: nat)
      requires Wired()
      ensures slot < 8 && slot == C.Victim(CacheAbs().tick)
    {
      slot := 0;
      for i := 0 to 8
        invariant slot < 8 && (i > 0 ==> slot < i) && (i == 0 ==> slot == 0)
        invariant forall j :: 0 <= j < i ==> cachetick[slot] <= cachetick[j]
        invariant forall j :: 0 <= j < slot ==> cachetick[slot] < cachetick[j]
      {
        if cachetick[i] < cachetick[slot] { slot := i; }
      }
      VictimIsUnique(cachetick[..], slot, C.Victim(cachetick[..]));
    }

    method CopyTo(src: array<u8>, from: nat, dst: array<u8>, at: nat)
      requires src != dst && from + 512 <= src.Length && at + 512 <= dst.Length
      modifies dst
      ensures dst[..] == Splice(old(dst[..]), at, src[from..from + 512])
    {
      forall i | 0 <= i < 512 { dst[at + i] := src[from + i]; }
    }

    /** A cached block, or the half of it that starts at `from`. */
    method ServeHit(slot: nat, from: nat, dst: array<u8>, at: nat)
      requires Wired() && slot < 8 && from <= 512 && dst != cachedata && at + 512 <= dst.Length
      modifies this`cacheticks, cachetick, dst
      ensures CacheAbs() == C.Hit(old(CacheAbs()), slot)
      ensures dst[..] == Splice(old(dst[..]), at, C.Slot(old(CacheAbs()), slot, from, 512))
    {
      CopyTo(cachedata, 1024 * slot + from, dst, at);
      cacheticks := (cacheticks + 1) % 0x1_0000_0000;
      cachetick[slot] := cacheticks;
    }

    /** The block the drive has ready goes into a slot, which from now on stands for `key`. */
    method FillSlot(slot: nat, key: u32)
      requires Wired() && On() && Streams(D()) && C.BlockBytes(Wide()) == |Rest(D())| && slot < 8
      modifies this`ctl, cachedata, cacheaddr
      ensures On() && Streams(D()) && D().disk == old(D().disk) && D().cfg == old(D().cfg)
      ensures CacheAbs() == old(CacheAbs()).(addr := old(CacheAbs()).addr[slot := key],
                                             data := Splice(old(CacheAbs()).data, 1024 * slot, old(Rest(D()))))
    {
      ghost var block := Rest(D());
      cacheaddr[slot] := key;
      TransferBlock(cachedata, 1024 * slot);
      assert block[..|block|] == block;
    }

    /** The block goes into a slot, half of it (or all) to the caller, and the tick counter
        moves. */
    method KeepBlock(slot: nat, key: u32, from: nat, dst: array<u8>, at: nat)
      requires Wired() && On() && Streams(D()) && C.BlockBytes(Wide()) == |Rest(D())| && slot < 8
      requires dst != cachedata && at + 512 <= dst.Length && from + 512 <= |Rest(D())|
      modifies this`ctl, this`cacheticks, cachedata, cacheaddr, dst
      ensures Attached() && Inv(D()) && D().disk == old(D().disk) && D().cfg == old(D().cfg)
      ensures var c, block := old(CacheAbs()), old(Rest(D()));
              CacheAbs() == C.Cache(c.addr[slot := key], c.tick, Splice(c.data, 1024 * slot, block), C.Bump(c.ticks))
      ensures dst[..] == Splice(old(dst[..]), at, old(Rest(D()))[from..from + 512])
    {
      ghost var block, before := Rest(D()), cachedata[..];
      FillSlot(slot, key);
      PartOfSplice(cachedata[..], before, 1024 * slot, block, from);
      CopyTo(cachedata, 1024 * slot + from, dst, at);
      cacheticks := (cacheticks + 1) % 0x1_0000_0000;
    }

    /** A miss that is to be kept: the slot with the least tick gives way.  Its tick is set
        before the transfer, the tick counter moves after it. */
    method MissStored(key: u32, from: nat, dst: array<u8>, at: nat)
      requires Wired() && DriveOk() && Mode() && key < 0x1000_0000 && C.OnDisk(D().disk, key, Wide())
      requires dst != cachedata && at + 512 <= dst.Length && from + 512 <= C.BlockBytes(Wide())
      modifies this`ctl, this`cacheticks, cachedata, cacheaddr, cachetick, dst
      ensures Attached() && Inv(D()) && D().disk == old(D().disk) && D().cfg == old(D().cfg)
      ensures CacheAbs() == C.Store(old(CacheAbs()), key, C.Block(old(D().disk), key, Wide()))
      ensures dst[..] == Splice(old(dst[..]), at, C.Block(old(D().disk), key, Wide())[from..from + 512])
    {
      ghost var block := C.Block(D().disk, key, Wide());
      var victim := LeastTick();
      cachetick[victim] := cacheticks;
      var status := IssueRead(key, sectorcount, readcommand);
      assert Rest(D()) == block;
      if Drq(status) && !Bsy(status) {
        KeepBlock(victim, key, from, dst, at);
      } else {
        assert false;  // the "ATA2 IO Error" path: this drive never takes it
      }
    }

    /** A miss that is not to be kept: a pair goes through the scratch buffer. */
    method MissDirect(key: u32, from: nat, dst: array<u8>, at: nat)
      requires Wired() && DriveOk() && Mode() && key < 0x1000_0000 && C.OnDisk(D().disk, key, Wide())
      requires dst != buff && at + 512 <= dst.Length && (if Wide() then from <= 512 else from == 0)
      modifies this`ctl, buff, dst
      ensures Attached() && Inv(D()) && D().disk == old(D().disk) && D().cfg == old(D().cfg)
      ensures dst[..] == Splice(old(dst[..]), at, C.Block(old(D().disk), key, Wide())[from..from + 512])
    {
      hide Rest, Inv;
      ghost var block := C.Block(D().disk, key, Wide());
      var status := IssueRead(key, sectorcount, readcommand);
      if Drq(status) && !Bsy(status) {
        assert Rest(D())[..C.BlockBytes(Wide())] == block;
        if drivetype == 0 {
          TransferBlock(dst, at);
          assert block[0..512] == block;
        } else {
          TransferBlock(buff, 0);
          assert buff[from..from + 512] == block[from..from + 512];
          CopyTo(buff, from, dst, at);
        }
      } else {
        assert false;  // the "ATA2 IO Error" path: this drive never takes it
      }
    }

    /** One block: from the cache if it is there, else from the drive, and then into the slot
        with the least tick if it is to be kept. */
    method Fetch(dst: array<u8>, at: nat, sector: u32, store: bool)
      requires Wired() && DriveOk() && Mode() && C.Readable(D().disk, sector, Wide())
      requires dst != cachedata && dst != buff && at + 512 <= dst.Length
      modifies this`ctl, this`cacheticks, cachedata, cacheaddr, cachetick, buff, dst
      ensures Attached() && Inv(D()) && D().disk == old(D().disk) && D().cfg == old(D().cfg)
      ensures (CacheAbs(), dst[..]) ==
              var r := C.ReadBlock(old(CacheAbs()), C.Request(sector, store), Wide(), old(D().disk));
              (r.0, Splice(old(dst[..]), at, r.1))
    {
      var from, key := 0, sector;
      if drivetype == 1 && sector % 2 == 1 { from, key := 512, sector - 1; }
      var slot := FindSlot(key);
      if slot.Some? {
        ServeHit(slot.value, from, dst, at);
      } else if store {
        MissStored(key, from, dst, at);
      } else {
        MissDirect(key, from, dst, at);
      }
    }

    /** The block reader: it delivers the sector on the disk and leaves every valid slot equal to
        the disk, whatever transfer the drive had open. */
    method ReadBlock2(dst: array<u8>, at: nat, sector: u32, store: bool)
      requires Valid() && C.Readable(D().disk, sector, Wide())
      requires dst != cachedata && dst != buff && at + 512 <= dst.Length
      modifies this`ctl, this`cacheticks, cachedata, cacheaddr, cachetick, buff, dst
      ensures Valid() && D().disk == old(D().disk)
      ensures CacheAbs() == C.ReadBlock(old(CacheAbs()), C.Request(sector, store), Wide(), old(D().disk)).0
      ensures 512 * sector + 512 <= |old(D()).disk|
      ensures dst[..] == Splice(old(dst[..]), at, C.Sector(old(D()).disk, sector))
    {
      C.ReadBlockCorrect(CacheAbs(), C.Request(sector, store), Wide(), D().disk);
      Fetch(dst, at, sector, store);
    }

    /** What callers rely on: the sector on the disk arrives, whatever the cache holds. */
    method ReadSector(dst: array<u8>, at: nat, sector: u32, store: bool)
      requires Valid() && C.Readable(D().disk, sector, Wide())
      requires dst != cachedata && dst != buff && at + 512 <= dst.Length
      modifies this`ctl, this`cacheticks, cachedata, cacheaddr, cachetick, buff, dst
      ensures Valid() && D().disk == old(D()).disk && 512 * sector + 512 <= |old(D()).disk|
      ensures forall k :: 0 <= k < dst.Length ==>
                dst[k] == if at <= k < at + 512 then old(D()).disk[512 * sector + (k - at)] else old(dst[k])
    {
      hide Splice, Inv, C.Coherent, C.ReadBlock;
      ghost var s, t := dst[..], C.Sector(D().disk, sector);
      ReadBlock2(dst, at, sector, store);
      ElementsOfSplice(dst[..], s, at, t);
    }

    /** `count` consecutive sectors, one block at a time; with `store` through the cache. */
    method ReadBlocks(dst: array<u8>, at: nat, sector: u32, count: u32, store: bool)
      requires Valid() && Spans(D().disk, sector, count, Wide())
      requires dst != cachedata && dst != buff && at + 512 * count <= dst.Length
      modifies this`ctl, this`cacheticks, cachedata, cacheaddr, cachetick, buff, dst
      ensures Valid() && D().disk == old(D().disk)
      ensures dst[..] == Splice(old(dst[..]), at, Sectors512(D().disk, sector, count))
    {
      ghost var disk, before := D().disk, dst[..];
      var done := 0;
      while done < count
        invariant done <= count && Valid() && D().disk == disk && Spans(disk, sector, count, Wide())
        invariant 512 * done == 0 || 512 * (sector + done) <= |disk|
        invariant forall k :: 0 <= k < dst.Length ==>
                    dst[k] == if at <= k < at + 512 * done then disk[512 * sector + (k - at)] else before[k]
      {
        SpanHas(disk, sector, count, Wide(), done);
        ReadSector(dst, at + 512 * done, sector + done, store);
        done := done + 1;
      }
      SpliceByElements(dst[..], before, at, Sectors512(disk, sector, count));
    }

    method SetMode(oddFails: bool)
      modifies this`drivetype, this`readcommand, this`sectorcount
      ensures if oddFails then drivetype == 1 && readcommand == 0xc4 && sectorcount == 2
              else drivetype == 0 && readcommand == 0x21 && sectorcount == 1
    {
      if oddFails {
        drivetype, readcommand, sectorcount := 1, 0xc4, 2;
      } else {
        drivetype, readcommand, sectorcount := 0, 0x21, 1;
      }
    }

    /** Finds out whether odd sectors can be read.  On this drive they can, so the mode is type
        0; the sector asked for stays unread in the drive. */
    method FindTransferMode()
      requires Wired() && DriveOk() && 1024 <= |D().disk|
      requires C.Coherent(CacheAbs(), D().disk, Wide())
      modifies this`ctl, this`drivetype, this`readcommand, this`sectorcount
      ensures Valid() && drivetype == 0 && D().disk == old(D().disk) && CacheAbs() == old(CacheAbs())
      ensures Streams(D()) && Rest(D()) == SectorBytes(D().disk, 1, 1)
    {
      var status := IssueRead(1, 1, 0x21);
      SetMode(ErrBit(status));
      NarrowStaysCoherent(CacheAbs(), D().disk, old(Wide()));
    }

    /** Two registers that must hold what was last written to them. */
    method Probe() returns (found: bool)
      requires DriveOk()
      modifies this`ctl
      ensures found && On() && Inv(D()) && D() == old(D()).(reg := D().reg)
    {
      ghost var d := D();
      OutTask(DeviceHead, 0xa0);
      Delay400ns();
      OutTask(SectorCount, 0x55);
      OutTask(SectorNo, 0xaa);
      OutTask(SectorCount, 0xaa);
      OutTask(SectorNo, 0x55);
      assert D() == d.(reg := D().reg);
      OutTask(SectorCount, 0x55);
      OutTask(SectorNo, 0xaa);
      assert D() == d.(reg := D().reg) && D().reg.sectorCount == 0x55 && D().reg.lba0 == 0xaa;
      var count := InTask(SectorCount);
      var no := InTask(SectorNo);
      found := count == 0x55 && no == 0xaa;
    }

    /** Probes for the drive and empties the cache. */
    method Init() returns (failed: bool)
      requires Wired() && DriveOk() && Mode()
      modifies this`ctl, this`cacheticks, cacheaddr, cachetick
      ensures !failed && Valid() && D().disk == old(D().disk)
      ensures CacheAbs().ticks == 0
      ensures forall i :: 0 <= i < 8 ==> CacheAbs().addr[i] == C.NO_ADDR && CacheAbs().tick[i] == 0
    {
      var found := Probe();
      failed := !found;
      if !failed { EmptyCache(); }
    }

    method EmptyCache()
      requires Wired()
      modifies this`cacheticks, cacheaddr, cachetick
      ensures CacheAbs().data == old(CacheAbs()).data && CacheAbs().ticks == 0
      ensures forall i :: 0 <= i < 8 ==> CacheAbs().addr[i] == C.NO_ADDR && CacheAbs().tick[i] == 0
    {
      ghost var data := cachedata[..];
      cacheticks := 0;
      for i := 0 to 8
        invariant cachedata[..] == data && cacheticks == 0
        invariant forall j :: 0 <= j < i ==> cachetick[j] == 0 && cacheaddr[j] == C.NO_ADDR
      {
        cachetick[i] := 0;
        cacheaddr[i] := C.NO_ADDR;
      }
    }
  }

  /** The drive moves words, no write transfer is open and the rest of a read transfer lies on
      the disk. */
  predicate Streams(d: Drive) {
    Inv(d) && !d.cfg.eightbit && OnDisk(d) && d.state != WriteReady
  }

  /** The bytes the drive still has to hand out. */
  function Rest(d: Drive): seq<u8>
    requires Streams(d)
  {
    Pending(FlatOf(d))
  }

  lemma VictimIsUnique(tick: seq<u32>, v: nat, w: nat)
    requires C.IsVictim(tick, v) && C.IsVictim(tick, w)
    ensures v == w
  {
    var a, b := tick[v], tick[w];
    assert a <= b && b <= a;
  }

  /** Every one of n sectors from `sector` on can be read. */
  predicate Spans(disk: seq<u8>, sector: nat, n: nat, wide: bool) {
    n == 0 || C.Readable(disk, sector + n - 1, wide)
  }

  lemma SpanHas(disk: seq<u8>, sector: nat, n: nat, wide: bool, i: nat)
    requires Spans(disk, sector, n, wide) && i < n
    ensures C.Readable(disk, sector + i, wide) && 512 * (sector + n) <= |disk|
  {
  }

  function Sectors512(disk: seq<u8>, sector: nat, n: nat): (r: seq<u8>)
    requires n == 0 || 512 * (sector + n) <= |disk|
    ensures |r| == 512 * n
  {
    if n == 0 then [] else SectorBytes(disk, sector, n)
  }

  lemma SpliceByElements(s': seq<u8>, s: seq<u8>, at: nat, t: seq<u8>)
    requires |s'| == |s| && at + |t| <= |s|
    requires forall k :: 0 <= k < |s| ==> s'[k] == if at <= k < at + |t| then t[k - at] else s[k]
    ensures s' == Splice(s, at, t)
  {
  }

  lemma ElementsOfSplice(s': seq<u8>, s: seq<u8>, at: nat, t: seq<u8>)
    requires at + |t| <= |s| && s' == Splice(s, at, t)
    ensures forall k :: 0 <= k < |s| ==> s'[k] == if at <= k < at + |t| then t[k - at] else s[k]
  {
  }

  lemma PartOfSplice(s': seq<u8>, s: seq<u8>, at: nat, t: seq<u8>, from: nat)
    requires at + |t| <= |s| && s' == Splice(s, at, t) && from + 512 <= |t|
    ensures s'[at + from..at + from + 512] == t[from..from + 512]
  {
  }

  /** A cache filled in pairs also serves single sectors. */
  lemma NarrowStaysCoherent(c: C.Cache, disk: seq<u8>, wide: bool)
    requires C.Shaped(c) && C.Coherent(c, disk, wide)
    ensures C.Coherent(c, disk, false)
  {
    forall i | 0 <= i < 8 && c.addr[i] != C.NO_ADDR
      ensures C.OnDisk(disk, c.addr[i], false) && C.Slot(c, i, 0, 512) == C.Block(disk, c.addr[i], false)
    {
      assert C.Slot(c, i, 0, C.BlockBytes(wide))[..512] == C.Slot(c, i, 0, 512);
      assert C.Block(disk, c.addr[i], wide)[..512] == C.Block(disk, c.addr[i], false);
    }
  }
}
