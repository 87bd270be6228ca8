/** Runs of the whole controller: each drive sees exactly the accesses made while it was
    selected, and the protocol invariant holds of both. */
module IdeController {
  import opened Prim
  import opened Ide
  import opened IdeTheorems

  datatype CtlRun = CtlRun(ctl: Ctl, results: seq<Res>, halted: bool)

  function RunCtl(c: Ctl, ops: seq<Access>): CtlRun
    decreases |ops|
  {
    if ops == [] then CtlRun(c, [], false)
    else
      var (c1, res) := Perform(c, ops[0]);
      if Halts(res) then CtlRun(c1, [res], true)
      else
        var rest := RunCtl(c1, ops[1..]);
        CtlRun(rest.ctl, [res] + rest.results, rest.halted)
  }

  /** The accesses of a run that drive `which` sees, and the results of those. */
  function Project(second: bool, ops: seq<Access>, which: bool): seq<Access>
    decreases |ops|
  {
    if ops == [] then []
    else
      var sel := SelectAfter(second, ops[0]);
      (if sel == which then [ops[0]] else []) + Project(sel, ops[1..], which)
  }

  function ProjectResults(second: bool, ops: seq<Access>, results: seq<Res>, which: bool): seq<Res>
    requires |results| <= |ops|
    decreases |ops|
  {
    if results == [] then []
    else
      var sel := SelectAfter(second, ops[0]);
      (if sel == which then [results[0]] else []) + ProjectResults(sel, ops[1..], results[1..], which)
  }

  lemma PerformOne(c: Ctl, a: Access, which: bool)
    requires DriveOf(c, which).Some?
    ensures var (c1, res) := Perform(c, a);
            var s := DriveStep(DriveOf(c, which).value, a);
            && c1.second == SelectAfter(c.second, a)
            && (c1.second == which ==> DriveOf(c1, which) == Some(s.drive) && res == s.res)
            && (c1.second != which ==> DriveOf(c1, which) == DriveOf(c, which))
  {
  }

  lemma RunCons(d: Drive, a: Access, rest: seq<Access>)
    ensures var s := DriveStep(d, a);
            DriveRun(d, [a] + rest) ==
              if Halts(s.res) then Run(s.drive, [s.res], true)
              else
                var r := DriveRun(s.drive, rest);
                Run(r.drive, [s.res] + r.results, r.halted)
  {
    assert ([a] + rest)[1..] == rest;
  }

  /** Independence: on every run that goes on to its end, each drive does what it would do on
      its own, fed with just the accesses made while it was selected; nothing sent to the other
      drive can disturb it. */
  lemma {:induction false} Independence(c: Ctl, ops: seq<Access>, which: bool)
    requires DriveOf(c, which).Some? && !RunCtl(c, ops).halted
    ensures var r := RunCtl(c, ops);
            var own := DriveRun(DriveOf(c, which).value, Project(c.second, ops, which));
            && |r.results| == |ops|
            && !own.halted && DriveOf(r.ctl, which) == Some(own.drive)
            && ProjectResults(c.second, ops, r.results, which) == own.results
    decreases |ops|
  {
    if ops != [] {
      var (c1, res) := Perform(c, ops[0]);
      PerformOne(c, ops[0], which);
      var rest := RunCtl(c1, ops[1..]);
      Independence(c1, ops[1..], which);
      assert RunCtl(c, ops).results[1..] == rest.results;
      var tail := Project(c1.second, ops[1..], which);
      if c1.second == which {
        RunCons(DriveOf(c, which).value, ops[0], tail);
      } else {
        assert [] + tail == tail;
      }
    }
  }

  predicate CtlInv(c: Ctl) {
    && (c.ide0.Some? ==> Inv(c.ide0.value))
    && (c.ide1.Some? ==> Inv(c.ide1.value))
    && (c.dmarq ==> (c.ide0.Some? && c.ide0.value.state != Idle) || (c.ide1.Some? && c.ide1.value.state != Idle))
  }

  /** DMA request: raised only when a transfer opens, dropped whenever one ends. */
  predicate DmarqSound(d: Drive, s: Step) {
    && (s.fx.dmarq == Some(true) ==> s.drive.state != Idle)
    && (d.state != Idle && s.drive.state == Idle ==> s.fx.dmarq == Some(false))
  }

  lemma DmarqStep(d: Drive, a: Access)
    requires Inv(d) && !Halts(DriveStep(d, a).res)
    ensures DmarqSound(d, DriveStep(d, a))
  {
    match a
    case Read8(_) => DmarqByte(d, 0);
    case Read16(_) => DmarqByte(d, 0); DmarqReadWord(d);
    case Write8(_, b) => DmarqByte(d, b); DmarqCommand(d, b);
    case Write16(_, w) => DmarqByte(d, w % 256); DmarqCommand(d, w % 256); DmarqWriteWord(d, w);
  }

  lemma DmarqByte(d: Drive, b: u8)
    requires Inv(d)
    ensures !Halts(DataRead8(d).res) ==> DmarqSound(d, DataRead8(d))
    ensures !Halts(DataWrite8(d, b).res) ==> DmarqSound(d, DataWrite8(d, b))
  {
  }

  lemma DmarqReadWord(d: Drive)
    requires Inv(d)
    ensures !Halts(DataRead16(d).res) ==> DmarqSound(d, DataRead16(d))
  {
    DmarqByte(d, 0);
    if DataRead8(d).res.Ok? {
      ReadSound(d);
      DmarqByte(DataRead8(d).drive, 0);
    }
  }

  lemma DmarqWriteWord(d: Drive, w: u16)
    requires Inv(d)
    ensures !Halts(DataWrite16(d, w).res) ==> DmarqSound(d, DataWrite16(d, w))
  {
    DmarqByte(d, w % 256);
    if DataWrite8(d, w % 256).res.Ok? {
      WriteSound(d, w % 256);
      DmarqByte(DataWrite8(d, w % 256).drive, w / 256);
    }
  }

  lemma DmarqCommand(d: Drive, cmd: u8)
    requires Inv(d)
    ensures !Halts(ExecCmd(d, cmd).res) ==> DmarqSound(d, ExecCmd(d, cmd))
  {
  }

  lemma PerformKeepsInv(c: Ctl, a: Access)
    requires CtlInv(c)
    ensures var (c1, res) := Perform(c, a);
            !Broken(res) && (!Halts(res) ==> CtlInv(c1))
  {
    var d := DriveOf(c, SelectAfter(c.second, a));
    if d.Some? {
      StepKeepsInv(d.value, a);
      if !Halts(DriveStep(d.value, a).res) { DmarqStep(d.value, a); }
    }
  }

  /** On every run of accesses of any kind, up to the one that ends the emulation: the buffer
      cursor and the sector countdown never run over, and the invariant of both drives holds. */
  lemma {:induction false} CtlRunKeepsInv(c: Ctl, ops: seq<Access>)
    requires CtlInv(c)
    ensures var r := RunCtl(c, ops);
            && (!r.halted ==> CtlInv(r.ctl))
            && (forall x :: x in r.results ==> !Broken(x))
    decreases |ops|
  {
    if ops != [] {
      PerformKeepsInv(c, ops[0]);
      var (c1, res) := Perform(c, ops[0]);
      if !Halts(res) { CtlRunKeepsInv(c1, ops[1..]); }
    }
  }
}
