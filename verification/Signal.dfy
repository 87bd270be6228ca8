/** Signal lines that share one trigger, as a machine of atomic steps: any number of lines, each
    with one driver at a time, and a consumer of the trigger, interleaved in any order. */
module Signal {

  datatype Kind = Hi | Lo | Edge

  /** Whether a change of level from `was` to `now` sets a trigger. */
  predicate Fires(kind: Kind, was: bool, now: bool) {
    match kind
    case Hi => !was && now
    case Lo => was && !now
    case Edge => (was && !now) || (!was && now)
  }

  /** Where the driver of a line is in a call: before the store to its own flag, before the atomic
      add or subtract, before the update of the trigger with the value the add gave back. */
  datatype Pc = Idle | Store(up: bool) | Count(up: bool) | Notify(up: bool, prior: int)

  /** `asked` is history: the last call that was made. */
  datatype Line = Line(own: bool, signal: int, pc: Pc, asked: bool)

  /** What the slave side sees. */
  predicate Asserted(l: Line) { l.signal != 0 }

  /** History: matching level changes so far, how many of them were announced to the trigger, and
      how many announcements a true check or a plain clear of the trigger has used up. */
  datatype History = History(changed: nat, announced: nat, reported: nat, dropped: nat)

  datatype State = State(kind: Kind, lines: seq<Line>, trigger: bool, h: History)

  datatype Action = Call(i: nat, up: bool) | Go(i: nat) | CheckAndClear | ClearTrigger

  /** A driver makes one call at a time. */
  predicate Enabled(s: State, a: Action) {
    match a
    case Call(i, up) => i < |s.lines| && s.lines[i].pc == Idle
    case Go(i) => i < |s.lines| && s.lines[i].pc != Idle
    case _ => true
  }

  /** The assertions inside `assert` and `clear`. */
  predicate Panics(s: State, a: Action)
    requires Enabled(s, a)
  {
    a.Go? && match s.lines[a.i].pc
             case Count(up) => if up then s.lines[a.i].signal < 0 else s.lines[a.i].signal <= 0
             case _ => false
  }

  /** One step of a call on a line that is in the middle of it. */
  function Advance(l: Line): Line
    requires l.pc != Idle
  {
    match l.pc
    case Store(up) => l.(own := up, pc := Count(up))
    case Count(up) => l.(signal := if up then l.signal + 1 else l.signal - 1, pc := Notify(up, l.signal))
    case Notify(_, _) => l.(pc := Idle)
    case Idle => l
  }

  /** Whether this step sets the trigger. */
  predicate Announces(kind: Kind, l: Line) {
    l.pc.Notify? && Fires(kind, l.pc.prior != 0, l.pc.up)
  }

  function Step(s: State, a: Action): State
    requires Enabled(s, a)
  {
    var h := s.h;
    match a
    case Call(i, up) =>
      var l := s.lines[i];
      s.(lines := s.lines[i := l.(pc := if l.own == up then Idle else Store(up), asked := up)])
    case Go(i) =>
      var l := s.lines[i];
      var l' := Advance(l);
      var changed := if Fires(s.kind, Asserted(l), Asserted(l')) then h.changed + 1 else h.changed;
      var announced := if Announces(s.kind, l) then h.announced + 1 else h.announced;
      s.(lines := s.lines[i := l'], trigger := s.trigger || Announces(s.kind, l),
         h := h.(changed := changed, announced := announced))
    case CheckAndClear =>
      s.(trigger := false, h := h.(reported := if s.trigger then Announced(s) else h.reported))
    case ClearTrigger =>
      s.(trigger := false, h := h.(dropped := Pending(s) + h.dropped))
  }

  /** What `reported` becomes when a check finds the trigger set. */
  function Announced(s: State): nat { s.h.reported + Pending(s) }

  /** Announcements not used up yet. */
  function Pending(s: State): nat {
    var n := s.h.announced - s.h.reported - s.h.dropped;
    if n < 0 then 0 else n
  }

  /** What `check_and_clear` returns. */
  predicate Answer(s: State) { s.trigger }

  // ---------------------------------------------------------------- the invariant

  predicate Sound(l: Line) {
    match l.pc
    case Idle => l.own == l.asked && l.signal == (if l.own then 1 else 0)
    case Store(up) => l.asked == up && l.own == !up && l.signal == (if up then 0 else 1)
    case Count(up) => l.asked == up && l.own == up && l.signal == (if up then 0 else 1)
    case Notify(up, prior) =>
      l.asked == up && l.own == up && l.signal == (if up then 1 else 0) && prior == (if up then 0 else 1)
  }

  /** Level changes that are counted but not announced yet. */
  function InFlight(kind: Kind, lines: seq<Line>): nat {
    if lines == [] then 0
    else (if Announces(kind, lines[0]) then 1 else 0) + InFlight(kind, lines[1..])
  }

  /** Every matching level change is in exactly one place: reported, dropped, waiting in the
      trigger, or in flight; and the trigger is set iff something waits in it. */
  predicate Inv(s: State) {
    && (forall i :: 0 <= i < |s.lines| ==> Sound(s.lines[i]))
    && s.h.reported + s.h.dropped <= s.h.announced
    && s.h.changed == s.h.announced + InFlight(s.kind, s.lines)
    && (s.trigger <==> s.h.reported + s.h.dropped < s.h.announced)
  }

  /** All lines low, nobody in a call. */
  function Start(kind: Kind, n: nat): State {
    State(kind, seq(n, _ => Line(false, 0, Idle, false)), false, History(0, 0, 0, 0))
  }

  lemma {:induction false} NoneInFlight(kind: Kind, lines: seq<Line>)
    requires forall i :: 0 <= i < |lines| ==> !Announces(kind, lines[i])
    ensures InFlight(kind, lines) == 0
  {
    if lines != [] { NoneInFlight(kind, lines[1..]); }
  }

  lemma StartIsSound(kind: Kind, n: nat)
    ensures Inv(Start(kind, n))
  {
    NoneInFlight(kind, Start(kind, n).lines);
  }

  /** Replacing one line changes the number in flight by that line only. */
  lemma {:induction false} FlightOfUpdate(kind: Kind, lines: seq<Line>, i: nat, l: Line)
    requires i < |lines|
    ensures InFlight(kind, lines[i := l]) + (if Announces(kind, lines[i]) then 1 else 0)
            == InFlight(kind, lines) + (if Announces(kind, l) then 1 else 0)
  {
    if i > 0 {
      assert lines[i := l][1..] == lines[1..][i - 1 := l];
      FlightOfUpdate(kind, lines[1..], i - 1, l);
    } else {
      assert lines[0 := l][1..] == lines[1..];
    }
  }

  /** The level changes in the very step that puts the change in flight. */
  lemma AdvanceIsSound(kind: Kind, l: Line)
    requires Sound(l) && l.pc != Idle
    ensures Sound(Advance(l))
    ensures Fires(kind, Asserted(l), Asserted(Advance(l))) <==> Announces(kind, Advance(l))
  {
  }

  /** In no interleaving does an internal assertion fail, and every step keeps the invariant. */
  lemma StepKeepsInv(s: State, a: Action)
    requires Inv(s) && Enabled(s, a)
    ensures !Panics(s, a) && Inv(Step(s, a))
  {
    match a
    case Call(i, up) =>
      FlightOfUpdate(s.kind, s.lines, i, Step(s, a).lines[i]);
    case Go(i) =>
      AdvanceIsSound(s.kind, s.lines[i]);
      FlightOfUpdate(s.kind, s.lines, i, Advance(s.lines[i]));
    case _ =>
  }

  // ---------------------------------------------------------------- runs

  predicate CanRun(s: State, run: seq<Action>)
    decreases |run|
  {
    run == [] || (Enabled(s, run[0]) && CanRun(Step(s, run[0]), run[1..]))
  }

  function Run(s: State, run: seq<Action>): State
    requires CanRun(s, run)
    decreases |run|
  {
    if run == [] then s else Run(Step(s, run[0]), run[1..])
  }

  lemma {:induction false} RunKeepsInv(s: State, run: seq<Action>)
    requires Inv(s) && CanRun(s, run)
    ensures Inv(Run(s, run)) && |Run(s, run).lines| == |s.lines| && Run(s, run).kind == s.kind
    decreases |run|
  {
    if run != [] {
      StepKeepsInv(s, run[0]);
      RunKeepsInv(Step(s, run[0]), run[1..]);
    }
  }

  /** The matching level changes between two states, as the slaves see them. */
  function LevelChanges(kind: Kind, before: seq<Line>, after: seq<Line>): nat
    requires |before| == |after|
  {
    if before == [] then 0
    else (if Fires(kind, Asserted(before[0]), Asserted(after[0])) then 1 else 0) + LevelChanges(kind, before[1..], after[1..])
  }

  lemma {:induction false} OneLineChanges(kind: Kind, lines: seq<Line>, i: nat, l: Line)
    requires i < |lines|
    ensures LevelChanges(kind, lines, lines[i := l]) == if Fires(kind, Asserted(lines[i]), Asserted(l)) then 1 else 0
  {
    if i > 0 {
      assert lines[i := l][1..] == lines[1..][i - 1 := l];
      OneLineChanges(kind, lines[1..], i - 1, l);
    } else {
      assert lines[0 := l][1..] == lines[1..];
      SameLines(kind, lines[1..]);
    }
  }

  lemma {:induction false} SameLines(kind: Kind, lines: seq<Line>)
    ensures LevelChanges(kind, lines, lines) == 0
  {
    if lines != [] { SameLines(kind, lines[1..]); }
  }

  function LevelChangesIn(s: State, run: seq<Action>): nat
    requires CanRun(s, run)
    decreases |run|
  {
    if run == [] then 0
    else LevelChanges(s.kind, s.lines, Step(s, run[0]).lines) + LevelChangesIn(Step(s, run[0]), run[1..])
  }

  /** The history counts what the slaves see: the matching level changes of the run. */
  lemma {:induction false} HistoryIsLevels(s: State, run: seq<Action>)
    requires CanRun(s, run)
    ensures Run(s, run).h.changed == s.h.changed + LevelChangesIn(s, run)
    decreases |run|
  {
    if run != [] {
      match run[0] {
        case Call(i, up) => OneLineChanges(s.kind, s.lines, i, Step(s, run[0]).lines[i]);
        case Go(i) => OneLineChanges(s.kind, s.lines, i, Advance(s.lines[i]));
        case _ => SameLines(s.kind, s.lines);
      }
      HistoryIsLevels(Step(s, run[0]), run[1..]);
    }
  }

  /** Over all runs: with no call in flight on a line, its level is its own flag, and that is what
      the last call asked for.  (Clones share the flag, so of several holders the last call wins.) */
  lemma LevelFollowsLastCall(kind: Kind, n: nat, run: seq<Action>, i: nat)
    requires CanRun(Start(kind, n), run) && i < n
    ensures i < |Run(Start(kind, n), run).lines|
    ensures var l := Run(Start(kind, n), run).lines[i];
            l.pc == Idle ==> Asserted(l) == l.own == l.asked
  {
    StartIsSound(kind, n);
    RunKeepsInv(Start(kind, n), run);
  }

  /** Over all runs: nothing is lost.  A check that answers no means every announced change was
      reported or dropped before; if it answers yes, all of them are reported by it.  With no
      call in flight, that is every matching change of level so far. */
  lemma NothingLost(kind: Kind, n: nat, run: seq<Action>)
    requires CanRun(Start(kind, n), run)
    ensures var s := Run(Start(kind, n), run);
            && (!Answer(s) ==> s.h.announced == s.h.reported + s.h.dropped)
            && Step(s, CheckAndClear).h.reported + s.h.dropped == s.h.announced
            && (InFlight(kind, s.lines) == 0 ==> Step(s, CheckAndClear).h.reported + s.h.dropped == s.h.changed)
  {
    StartIsSound(kind, n);
    RunKeepsInv(Start(kind, n), run);
  }

  /** Between two checks: actions that leave the trigger to the drivers. */
  predicate DriversOnly(run: seq<Action>) {
    forall a :: a in run ==> a.Call? || a.Go?
  }

  lemma {:induction false} DriversKeepReports(s: State, run: seq<Action>)
    requires CanRun(s, run) && DriversOnly(run)
    ensures Run(s, run).h.reported == s.h.reported && Run(s, run).h.dropped == s.h.dropped
    ensures s.h.changed <= Run(s, run).h.changed
    decreases |run|
  {
    if run != [] { DriversKeepReports(Step(s, run[0]), run[1..]); }
  }

  /** Over all runs: nothing is invented.  Between one check and the next, the second answers yes
      iff a matching change was announced in between; and then a slave saw a matching change in
      between, unless one was in flight at the first check. */
  lemma NothingInvented(s: State, run: seq<Action>)
    requires Inv(s) && CanRun(Step(s, CheckAndClear), run) && DriversOnly(run)
    ensures var t := Run(Step(s, CheckAndClear), run);
            && (Answer(t) <==> t.h.announced > s.h.announced)
            && (Answer(t) ==> LevelChangesIn(Step(s, CheckAndClear), run) > 0 || InFlight(s.kind, s.lines) > 0)
  {
    var s' := Step(s, CheckAndClear);
    StepKeepsInv(s, CheckAndClear);
    RunKeepsInv(s', run);
    DriversKeepReports(s', run);
    HistoryIsLevels(s', run);
  }

  lemma {:induction false} SomeInFlight(kind: Kind, lines: seq<Line>) returns (i: nat)
    requires InFlight(kind, lines) > 0
    ensures i < |lines| && Announces(kind, lines[i])
  {
    if Announces(kind, lines[0]) {
      i := 0;
    } else {
      i := SomeInFlight(kind, lines[1..]);
      i := i + 1;
    }
  }

  /** With a change in flight at a check, its announcement alone makes the next check answer yes. */
  lemma InFlightAnswersYes(s: State) returns (run: seq<Action>)
    requires Inv(s) && InFlight(s.kind, s.lines) > 0
    ensures CanRun(Step(s, CheckAndClear), run) && DriversOnly(run)
    ensures Answer(Run(Step(s, CheckAndClear), run)) && LevelChangesIn(Step(s, CheckAndClear), run) == 0
  {
    var i := SomeInFlight(s.kind, s.lines);
    var s' := Step(s, CheckAndClear);
    run := [Go(i)];
    assert run[1..] == [];
    assert CanRun(Step(s', Go(i)), []);
    OneLineChanges(s.kind, s.lines, i, Advance(s.lines[i]));
  }

  /** A yes means a change since the last check, whatever the drivers do, exactly when nothing was in
      flight at that check. */
  lemma YesMeansChangeExactly(s: State)
    requires Inv(s)
    ensures InFlight(s.kind, s.lines) == 0 <==>
            forall run :: DriversOnly(run) && CanRun(Step(s, CheckAndClear), run)
                          && Answer(Run(Step(s, CheckAndClear), run)) ==>
              LevelChangesIn(Step(s, CheckAndClear), run) > 0
  {
    if InFlight(s.kind, s.lines) == 0 {
      forall run | DriversOnly(run) && CanRun(Step(s, CheckAndClear), run) && Answer(Run(Step(s, CheckAndClear), run))
        ensures LevelChangesIn(Step(s, CheckAndClear), run) > 0
      {
        NothingInvented(s, run);
      }
    } else {
      var run := InFlightAnswersYes(s);
    }
  }

  /** The checks of a run that answer yes. */
  function Yeses(s: State, run: seq<Action>): nat
    requires CanRun(s, run)
    decreases |run|
  {
    if run == [] then 0
    else (if run[0] == CheckAndClear && Answer(s) then 1 else 0) + Yeses(Step(s, run[0]), run[1..])
  }

  lemma {:induction false} YesesAreReports(s: State, run: seq<Action>)
    requires Inv(s) && CanRun(s, run)
    ensures s.h.reported + Yeses(s, run) <= Run(s, run).h.reported
    decreases |run|
  {
    if run != [] {
      StepKeepsInv(s, run[0]);
      YesesAreReports(Step(s, run[0]), run[1..]);
    }
  }

  /** Over all runs checks never answer yes more often than the slaves saw a matching change. */
  lemma ReportsAreChanges(kind: Kind, n: nat, run: seq<Action>)
    requires CanRun(Start(kind, n), run)
    ensures Yeses(Start(kind, n), run) <= LevelChangesIn(Start(kind, n), run)
  {
    StartIsSound(kind, n);
    RunKeepsInv(Start(kind, n), run);
    YesesAreReports(Start(kind, n), run);
    HistoryIsLevels(Start(kind, n), run);
  }

  // ---------------------------------------------------------------- what each kind reports

  /** A whole call on line i, up to the moment its driver is idle again. */
  function WholeCall(s: State, i: nat, up: bool): seq<Action>
    requires i < |s.lines|
  {
    if s.lines[i].own == up then [Call(i, up)] else [Call(i, up), Go(i), Go(i), Go(i)]
  }

  /** Kinds in words: a Hi trigger is set by a line going up, a Lo trigger by one going down, an Edge
      trigger by both; here for one whole call on an idle line after the trigger was cleared. */
  lemma CallAnswers(s: State, i: nat, up: bool)
    requires Inv(s) && i < |s.lines| && s.lines[i].pc == Idle && !s.trigger
    ensures CanRun(s, WholeCall(s, i, up))
    ensures var was, t := Asserted(s.lines[i]), Run(s, WholeCall(s, i, up));
            && i < |t.lines| && Asserted(t.lines[i]) == up && t.lines[i].pc == Idle
            && (Answer(t) <==>
                  match s.kind
                  case Hi => !was && up
                  case Lo => was && !up
                  case Edge => was != up)
  {
    var s1 := Step(s, Call(i, up));
    if s.lines[i].own == up {
      RunOfOne(s, Call(i, up));
    } else {
      var s2 := Step(s1, Go(i));
      var s3 := Step(s2, Go(i));
      RunOfOne(s3, Go(i));
      RunOfMore(s2, Go(i), [Go(i)]);
      RunOfMore(s1, Go(i), [Go(i), Go(i)]);
      RunOfMore(s, Call(i, up), [Go(i), Go(i), Go(i)]);
    }
  }

  lemma RunOfOne(s: State, a: Action)
    requires Enabled(s, a)
    ensures CanRun(s, [a]) && Run(s, [a]) == Step(s, a)
  {
    assert [a][1..] == [];
    assert CanRun(Step(s, a), []);
  }

  lemma RunOfMore(s: State, a: Action, rest: seq<Action>)
    requires Enabled(s, a) && CanRun(Step(s, a), rest)
    ensures CanRun(s, [a] + rest) && Run(s, [a] + rest) == Run(Step(s, a), rest)
  {
    assert ([a] + rest)[1..] == rest;
  }

  // ---------------------------------------------------------------- holders of a line

  predicate IsCall(a: Action, i: nat) { a.Call? && a.i == i }

  /** What each of n holders of line i last asked of it; `caller` says who made each call of the run. */
  function Wishes(run: seq<Action>, caller: seq<nat>, i: nat, n: nat): (w: seq<bool>)
    requires |caller| == |run| && forall k :: 0 <= k < |caller| ==> caller[k] < n
    ensures |w| == n
    decreases |run|
  {
    if run == [] then seq(n, _ => false)
    else
      var m := |run| - 1;
      var w := Wishes(run[..m], caller[..m], i, n);
      if IsCall(run[m], i) then w[caller[m] := run[m].up] else w
  }

  /** The last call made on line i. */
  function LastCall(run: seq<Action>, i: nat): (r: int)
    ensures r == -1 || (0 <= r < |run| && IsCall(run[r], i))
    decreases |run|
  {
    if run == [] then -1
    else if IsCall(run[|run| - 1], i) then |run| - 1
    else LastCall(run[..|run| - 1], i)
  }

  predicate SomeoneWants(wishes: seq<bool>) { exists k :: 0 <= k < |wishes| && wishes[k] }

  predicate OthersWant(wishes: seq<bool>, holder: nat) { exists k :: 0 <= k < |wishes| && k != holder && wishes[k] }

  lemma {:induction false} RunLast(s: State, run: seq<Action>)
    requires run != [] && CanRun(s, run)
    ensures CanRun(s, run[..|run| - 1]) && Enabled(Run(s, run[..|run| - 1]), run[|run| - 1])
    ensures Run(s, run) == Step(Run(s, run[..|run| - 1]), run[|run| - 1])
    decreases |run|
  {
    var front := run[..|run| - 1];
    if |run| == 1 {
      assert run[1..] == [] && front == [];
    } else {
      RunLast(Step(s, run[0]), run[1..]);
      assert run[1..][..|run| - 2] == front[1..];
    }
  }

  lemma {:induction false} AskedIsLastCall(kind: Kind, n: nat, run: seq<Action>, i: nat)
    requires CanRun(Start(kind, n), run) && i < n
    ensures i < |Run(Start(kind, n), run).lines|
    ensures var last := LastCall(run, i);
            Run(Start(kind, n), run).lines[i].asked == (last >= 0 && run[last].up)
    decreases |run|
  {
    if run != [] {
      RunLast(Start(kind, n), run);
      AskedIsLastCall(kind, n, run[..|run| - 1], i);
    }
  }

  lemma {:induction false} LastWishStands(run: seq<Action>, caller: seq<nat>, i: nat, n: nat)
    requires |caller| == |run| && forall k :: 0 <= k < |caller| ==> caller[k] < n
    ensures var last := LastCall(run, i);
            if last >= 0 then Wishes(run, caller, i, n)[caller[last]] == run[last].up
            else forall k :: 0 <= k < n ==> !Wishes(run, caller, i, n)[k]
    decreases |run|
  {
    if run != [] { LastWishStands(run[..|run| - 1], caller[..|run| - 1], i, n); }
  }

  /** The documentation promises a line that is high exactly while some holder wants it high.  Over all
      runs, with no call in flight on the line, the promise is kept exactly when the last call asked
      for high, or no other holder still wants it. */
  lemma PromiseKeptExactly(kind: Kind, n: nat, run: seq<Action>, i: nat, caller: seq<nat>, holders: nat)
    requires CanRun(Start(kind, n), run) && i < n
    requires |caller| == |run| && forall k :: 0 <= k < |caller| ==> caller[k] < holders
    ensures i < |Run(Start(kind, n), run).lines|
    ensures var l, wishes, last := Run(Start(kind, n), run).lines[i], Wishes(run, caller, i, holders), LastCall(run, i);
            l.pc == Idle ==>
              ((Asserted(l) <==> SomeoneWants(wishes)) <==>
               last < 0 || run[last].up || !OthersWant(wishes, caller[last]))
  {
    LevelFollowsLastCall(kind, n, run, i);
    AskedIsLastCall(kind, n, run, i);
    LastWishStands(run, caller, i, holders);
  }

  // ---------------------------------------------------------------- two drivers at once

  /** Why one driver at a time: if a second holder loads the flag before the first stores it, both
      add, and one clear leaves the line high. */
  lemma TwoDriversOverlap(l: Line)
    requires Sound(l) && l.pc == Idle && !l.own
    ensures var first := Advance(Advance(Advance(l.(pc := Store(true)))));
            var second := Advance(Advance(Advance(first.(pc := Store(true)))));
            var cleared := Advance(Advance(Advance(second.(pc := Store(false)))));
            !cleared.own && Asserted(cleared)
  {
  }

  // ---------------------------------------------------------------- uninterrupted calls

  /** A whole call that nothing comes between. */
  function Whole(l: Line, up: bool): Line
    requires l.pc == Idle
  {
    var called := l.(asked := up);
    if l.own == up then called else Advance(Advance(Advance(called.(pc := Store(up)))))
  }

  class Flag {
    var v: bool
    constructor () ensures !v { v := false; }
  }

  class Counter {
    var v: int
    constructor () ensures v == 0 { v := 0; }
  }

  /** A trigger, shared by the lines it is hooked to. */
  class Trigger {
    const kind: Kind
    const trigger: Flag

    constructor (kind: Kind)
      ensures this.kind == kind && fresh(trigger) && !trigger.v
    {
      this.kind := kind;
      trigger := new Flag();
    }

    method Update(was: bool, now: bool)
      modifies trigger
      ensures trigger.v == (old(trigger.v) || Fires(kind, was, now))
    {
      match kind
      case Hi => if !was && now { trigger.v := true; }
      case Lo => if was && !now { trigger.v := true; }
      case Edge => if (was && !now) || (!was && now) { trigger.v := true; }
    }

    method CheckAndClear() returns (was: bool)
      modifies trigger
      ensures was == old(trigger.v) && !trigger.v
    {
      was := trigger.v;
      trigger.v := false;
    }
  }

  /** The sending side.  Clones share all three cells, the own flag included. */
  class Master {
    const trigger: Trigger
    const own: Flag
    const signal: Counter

    ghost predicate Valid() reads own, signal { own != trigger.trigger && Sound(Abs(own.v)) }

    ghost function Abs(asked: bool): Line reads own, signal { Line(own.v, signal.v, Idle, asked) }

    constructor (trigger: Trigger)
      ensures Valid() && this.trigger == trigger && fresh(own) && fresh(signal) && !own.v
    {
      this.trigger := trigger;
      own := new Flag();
      signal := new Counter();
    }

    constructor Clone(m: Master)
      ensures trigger == m.trigger && own == m.own && signal == m.signal
    {
      trigger, own, signal := m.trigger, m.own, m.signal;
    }

    method Assert()
      requires Valid()
      modifies own, signal, trigger.trigger
      ensures Valid() && own.v && Abs(true) == Whole(old(Abs(own.v)), true)
      ensures trigger.trigger.v == (old(trigger.trigger.v) || Fires(trigger.kind, old(own.v), true))
    {
      if own.v { return; }
      own.v := true;
      var prior := signal.v;
      signal.v := signal.v + 1;
      assert prior >= 0;
      trigger.Update(prior != 0, true);
    }

    method Clear()
      requires Valid()
      modifies own, signal, trigger.trigger
      ensures Valid() && !own.v && Abs(false) == Whole(old(Abs(own.v)), false)
      ensures trigger.trigger.v == (old(trigger.trigger.v) || Fires(trigger.kind, old(own.v), false))
    {
      if !own.v { return; }
      own.v := false;
      var prior := signal.v;
      signal.v := signal.v - 1;
      assert prior > 0;
      trigger.Update(prior != 0, false);
    }
  }

  /** The same for one uninterrupted call of holder k, whose wish is `up` from then on. */
  lemma CallKeepsPromiseExactly(l: Line, wishes: seq<bool>, k: nat, up: bool)
    requires Sound(l) && l.pc == Idle && k < |wishes|
    ensures (Asserted(Whole(l, up)) <==> SomeoneWants(wishes[k := up])) <==> up || !OthersWant(wishes, k)
  {
    var after := wishes[k := up];
    assert after[k] == up;
    if j :| 0 <= j < |wishes| && j != k && wishes[j] { assert after[j]; }
  }

  /** Two clones assert, one clears: the line is low although the other still wants it high. */
  method OneClearForAll(trigger: Trigger) returns (high: bool)
    modifies trigger.trigger
    ensures !high
  {
    var a := new Master(trigger);
    var b := new Master.Clone(a);
    a.Assert();
    b.Assert();
    a.Clear();
    high := b.signal.v != 0;
  }
}
