/** The GL trace recorder: imports grouped by frame, and equal consecutive frames stored once. */
module GlTrace {
  import opened Prim

  type u64 = x: int | 0 <= x < 0x1_0000_0000_0000_0000

  const MAX64 := 0xffff_ffff_ffff_ffff

  /** The body stands for the fields that go into a signature. */
  datatype Record = Record(seqNo: u64, seqInFrame: nat, body: nat)
  datatype Frame = Frame(first: u64, last: u64, repeats: u64, signature: nat, records: seq<Record>)

  /** One call of the recorder. */
  datatype Call = Call(frame: u64, body: nat)

  // ---------------------------------------------------------------- what was recorded

  datatype Group = Group(frame: u64, bodies: seq<nat>)

  /** The calls cut into maximal stretches of one frame number. */
  function Groups(calls: seq<Call>): (g: seq<Group>)
    ensures g == [] <==> calls == []
  {
    if calls == [] then [] else Grown(Groups(calls[..|calls| - 1]), calls[|calls| - 1])
  }

  lemma {:induction false} GroupsAreMaximal(calls: seq<Call>, i: nat)
    requires i + 1 < |Groups(calls)|
    ensures Groups(calls)[i].frame != Groups(calls)[i + 1].frame
  {
    hide Grown;
    var before := calls[..|calls| - 1];
    if i + 1 < |Groups(before)| { GroupsAreMaximal(before, i); }
    GrownFrames(Groups(before), calls[|calls| - 1], i);
  }

  function Flat(groups: seq<Group>): seq<Call> {
    if groups == [] then []
    else Flat(groups[..|groups| - 1]) + CallsOf(groups[|groups| - 1])
  }

  function CallsOf(g: Group): seq<Call> {
    seq(|g.bodies|, i requires 0 <= i < |g.bodies| => Call(g.frame, g.bodies[i]))
  }

  lemma {:induction false} GroupsKeepCalls(calls: seq<Call>)
    ensures Flat(Groups(calls)) == calls
  {
    if calls != [] {
      var before, c := calls[..|calls| - 1], calls[|calls| - 1];
      GroupsKeepCalls(before);
      assert calls == before + [c];
      FlatGrows(Groups(before), c);
    }
  }

  /** A further call lengthens the last group or opens a new one. */
  function Grown(g: seq<Group>, c: Call): (r: seq<Group>)
    ensures r != []
  {
    if g != [] && g[|g| - 1].frame == c.frame then g[..|g| - 1] + [Group(c.frame, g[|g| - 1].bodies + [c.body])]
    else g + [Group(c.frame, [c.body])]
  }

  lemma GrownFrames(g: seq<Group>, c: Call, i: nat)
    requires i + 1 < |Grown(g, c)|
    requires i + 1 < |g| ==> g[i].frame != g[i + 1].frame
    ensures Grown(g, c)[i].frame != Grown(g, c)[i + 1].frame
  {
  }

  lemma {:induction false} FlatGrows(g: seq<Group>, c: Call)
    ensures Flat(Grown(g, c)) == Flat(g) + [c]
  {
    if g != [] && g[|g| - 1].frame == c.frame {
      var last := g[|g| - 1];
      var longer := Group(c.frame, last.bodies + [c.body]);
      assert CallsOf(longer) == CallsOf(last) + [c];
      assert Grown(g, c)[..|g| - 1] == g[..|g| - 1];
    } else {
      assert CallsOf(Group(c.frame, [c.body])) == [c];
      assert Grown(g, c)[..|g|] == g;
    }
  }

  // ---------------------------------------------------------------- the code

  function Bodies(records: seq<Record>): (b: seq<nat>)
    ensures |b| == |records|
  {
    seq(|records|, i requires 0 <= i < |records| => records[i].body)
  }

  /** The last n groups are one run: they share a signature, and its frame record brackets them and
      holds the first of them. */
  ghost predicate IsRun(f: Frame, groups: seq<Group>, sig: seq<nat> -> nat) {
    && 0 < f.repeats == |groups|
    && f.first == groups[0].frame && f.last == groups[|groups| - 1].frame && Bodies(f.records) == groups[0].bodies
    && forall k :: 0 <= k < |groups| ==> sig(groups[k].bodies) == f.signature
  }

  /** The frame records part the groups into runs. */
  ghost predicate Codes(frames: seq<Frame>, groups: seq<Group>, sig: seq<nat> -> nat) {
    if frames == [] then groups == []
    else
      var f := frames[|frames| - 1];
      f.repeats <= |groups| && IsRun(f, groups[|groups| - f.repeats..], sig)
      && Codes(frames[..|frames| - 1], groups[..|groups| - f.repeats], sig)
  }

  /** No two neighbours could be one run. */
  ghost predicate Tight(frames: seq<Frame>) {
    forall i :: 0 <= i < |frames| - 1 ==> frames[i].signature != frames[i + 1].signature
  }

  function Repeat(x: nat, n: nat): seq<nat> { seq(n, _ => x) }

  /** The signatures of all frames, each as often as it was repeated. */
  function Expand(frames: seq<Frame>): seq<nat> {
    if frames == [] then []
    else Expand(frames[..|frames| - 1]) + Repeat(frames[|frames| - 1].signature, frames[|frames| - 1].repeats)
  }

  function Signatures(groups: seq<Group>, sig: seq<nat> -> nat): (s: seq<nat>)
    ensures |s| == |groups|
  {
    seq<nat>(|groups|, i requires 0 <= i < |groups| => sig(groups[i].bodies))
  }

  /** Expanding the code gives back the signatures of all groups, in order. */
  lemma {:induction false} ExpandDecodes(frames: seq<Frame>, groups: seq<Group>, sig: seq<nat> -> nat)
    requires Codes(frames, groups, sig)
    ensures Expand(frames) == Signatures(groups, sig)
  {
    if frames != [] {
      var f := frames[|frames| - 1];
      var at := |groups| - f.repeats;
      ExpandDecodes(frames[..|frames| - 1], groups[..at], sig);
      assert Signatures(groups, sig) == Signatures(groups[..at], sig) + Signatures(groups[at..], sig);
      assert Signatures(groups[at..], sig) == Repeat(f.signature, f.repeats);
    }
  }

  /** The bodies of all frames, each as often as it was repeated. */
  function ExpandBodies(frames: seq<Frame>): seq<seq<nat>> {
    if frames == [] then []
    else
      var f := frames[|frames| - 1];
      ExpandBodies(frames[..|frames| - 1]) + seq(f.repeats, _ => Bodies(f.records))
  }

  function GroupBodies(groups: seq<Group>): (s: seq<seq<nat>>)
    ensures |s| == |groups|
  {
    seq(|groups|, i requires 0 <= i < |groups| => groups[i].bodies)
  }

  /** Signatures without collisions lose nothing. */
  lemma {:induction false} LosslessWithoutCollisions(frames: seq<Frame>, groups: seq<Group>, sig: seq<nat> -> nat)
    requires Codes(frames, groups, sig)
    requires forall i, j :: 0 <= i < |groups| && 0 <= j < |groups| && sig(groups[i].bodies) == sig(groups[j].bodies) ==>
               groups[i].bodies == groups[j].bodies
    ensures ExpandBodies(frames) == GroupBodies(groups)
  {
    if frames != [] {
      var f := frames[|frames| - 1];
      var at := |groups| - f.repeats;
      LosslessWithoutCollisions(frames[..|frames| - 1], groups[..at], sig);
      assert GroupBodies(groups) == GroupBodies(groups[..at]) + GroupBodies(groups[at..]);
      forall k | 0 <= k < f.repeats
        ensures GroupBodies(groups[at..])[k] == Bodies(f.records)
      {
        assert groups[at..][k] == groups[at + k] && groups[at..][0] == groups[at];
      }
      assert GroupBodies(groups[at..]) == seq(f.repeats, _ => Bodies(f.records));
    }
  }

  predicate SameRun(f: Frame, g: Frame) {
    f.repeats == g.repeats && f.signature == g.signature && f.first == g.first && f.last == g.last
  }

  /** A tight code is the only one: its runs are as long as they can be. */
  lemma {:induction false} TightIsUnique(a: seq<Frame>, b: seq<Frame>, groups: seq<Group>, sig: seq<nat> -> nat)
    requires Codes(a, groups, sig) && Codes(b, groups, sig) && Tight(a) && Tight(b)
    ensures |a| == |b|
    ensures forall i :: 0 <= i < |a| ==> SameRun(a[i], b[i])
  {
    if a != [] && b != [] {
      LastRunsAgree(a, b, groups, sig);
      var at := |groups| - a[|a| - 1].repeats;
      TightIsUnique(a[..|a| - 1], b[..|b| - 1], groups[..at], sig);
    }
  }

  lemma {:induction false} LastRunsAgree(a: seq<Frame>, b: seq<Frame>, groups: seq<Group>, sig: seq<nat> -> nat)
    requires a != [] && b != [] && Codes(a, groups, sig) && Codes(b, groups, sig) && Tight(a) && Tight(b)
    ensures SameRun(a[|a| - 1], b[|b| - 1])
  {
    SameSignature(a, b, groups, sig);
    NotLonger(a, b, groups, sig);
    NotLonger(b, a, groups, sig);
  }

  /** The last runs end with the same group. */
  lemma {:induction false} SameSignature(a: seq<Frame>, b: seq<Frame>, groups: seq<Group>, sig: seq<nat> -> nat)
    requires a != [] && b != [] && Codes(a, groups, sig) && Codes(b, groups, sig)
    ensures a[|a| - 1].signature == b[|b| - 1].signature
  {
    var f, g, n := a[|a| - 1], b[|b| - 1], |groups|;
    assert groups[n - f.repeats..][f.repeats - 1] == groups[n - 1] == groups[n - g.repeats..][g.repeats - 1];
  }

  /** If one code's last run is longer, the other has two runs of one signature at its end. */
  lemma {:induction false} LongerRun(a: seq<Frame>, b: seq<Frame>, groups: seq<Group>, sig: seq<nat> -> nat)
    requires a != [] && b != [] && Codes(a, groups, sig) && Codes(b, groups, sig)
    requires b[|b| - 1].repeats > a[|a| - 1].repeats
    ensures |a| > 1 && a[|a| - 2].signature == b[|b| - 1].signature
  {
    var f, g, n := a[|a| - 1], b[|b| - 1], |groups|;
    var at := n - f.repeats;
    var e := a[..|a| - 1][|a| - 2];
    assert groups[..at][at - e.repeats..][e.repeats - 1] == groups[at - 1];
    assert groups[n - g.repeats..][g.repeats - f.repeats - 1] == groups[at - 1];
  }

  lemma {:induction false} NotLonger(a: seq<Frame>, b: seq<Frame>, groups: seq<Group>, sig: seq<nat> -> nat)
    requires a != [] && b != [] && Codes(a, groups, sig) && Codes(b, groups, sig) && Tight(a)
    ensures b[|b| - 1].repeats <= a[|a| - 1].repeats
  {
    if b[|b| - 1].repeats > a[|a| - 1].repeats {
      SameSignature(a, b, groups, sig);
      LongerRun(a, b, groups, sig);
      assert false;
    }
  }

  /** A group that differs from the last run opens a new one. */
  lemma {:induction false} NewRun(frames: seq<Frame>, groups: seq<Group>, f: Frame, g: Group, sig: seq<nat> -> nat)
    requires Codes(frames, groups, sig) && IsRun(f, [g], sig)
    ensures Codes(frames + [f], groups + [g], sig)
  {
    var all := groups + [g];
    assert (frames + [f])[..|frames|] == frames && all[..|groups|] == groups && all[|groups|..] == [g];
  }

  /** A group like the last run lengthens it. */
  lemma {:induction false} LongerByOne(frames: seq<Frame>, groups: seq<Group>, f: Frame, g: Group, sig: seq<nat> -> nat)
    requires frames != [] && Codes(frames, groups, sig)
    requires var e := frames[|frames| - 1];
             sig(g.bodies) == e.signature && e.repeats < MAX64 && f == e.(last := g.frame, repeats := e.repeats + 1)
    ensures Codes(frames[..|frames| - 1] + [f], groups + [g], sig)
  {
    var e, all := frames[|frames| - 1], groups + [g];
    var at := |groups| - e.repeats;
    var now := frames[..|frames| - 1] + [f];
    assert now[..|now| - 1] == frames[..|frames| - 1] && all[..at] == groups[..at] && all[at..] == groups[at..] + [g];
  }

  lemma {:induction false} RunsAreShort(frames: seq<Frame>, groups: seq<Group>, sig: seq<nat> -> nat)
    requires Codes(frames, groups, sig) && frames != []
    ensures frames[|frames| - 1].repeats <= |groups|
  {
  }

  lemma {:induction false} NoMoreGroupsThanCalls(calls: seq<Call>)
    ensures |Groups(calls)| <= |calls|
  {
    if calls != [] { NoMoreGroupsThanCalls(calls[..|calls| - 1]); }
  }

  // ---------------------------------------------------------------- numbering

  /** The records of one frame: consecutive numbers, counted from one within the frame. */
  ghost predicate Consecutive(records: seq<Record>) {
    forall k :: 0 <= k < |records| ==> records[k].seqNo == records[0].seqNo + k && records[k].seqInFrame == k + 1
  }

  /** Stored frames follow each other in number, below `next`. */
  ghost predicate Numbered(frames: seq<Frame>, next: nat) {
    && (forall i :: 0 <= i < |frames| ==>
          frames[i].records != [] && Consecutive(frames[i].records) && frames[i].records[0].seqNo + |frames[i].records| <= next)
    && (forall i, j :: 0 <= i < j < |frames| ==>
          frames[i].records[0].seqNo + |frames[i].records| <= frames[j].records[0].seqNo)
  }

  /** So the numbers of stored records go up, within a frame and from frame to frame. */
  lemma {:induction false} NumbersGoUp(frames: seq<Frame>, next: nat, i: nat, k: nat, j: nat, m: nat)
    requires Numbered(frames, next) && i < |frames| && j < |frames| && k < |frames[i].records| && m < |frames[j].records|
    requires i < j || (i == j && k < m)
    ensures frames[i].records[k].seqNo < frames[j].records[m].seqNo
  {
    assert Consecutive(frames[i].records) && Consecutive(frames[j].records);
  }

  // ---------------------------------------------------------------- the recorder

  datatype State = State(nextSeq: u64, currentFrame: Option<u64>, currentRecords: seq<Record>, frames: seq<Frame>)

  const NEW := State(1, None, [], [])

  /** Closes the open frame: a frame like the last one is only counted. */
  function Flush(sig: seq<nat> -> nat, s: State): (r: State)
    ensures r.currentFrame == None
  {
    if s.currentFrame == None then s
    else if s.currentRecords == [] then s.(currentFrame := None)
    else
      var frame, signature := s.currentFrame.value, sig(Bodies(s.currentRecords));
      var n := |s.frames|;
      if n > 0 && s.frames[n - 1].signature == signature then
        State(s.nextSeq, None, [], s.frames[..n - 1] + [Lengthened(s.frames[n - 1], frame)])
      else State(s.nextSeq, None, [], s.frames + [Frame(frame, frame, 1, signature, s.currentRecords)])
  }

  function Lengthened(f: Frame, frame: u64): Frame {
    f.(last := frame, repeats := if f.repeats == MAX64 then MAX64 else f.repeats + 1)
  }

  /** Records a call of a frame. */
  function Capture(sig: seq<nat> -> nat, s: State, c: Call): State {
    var t := if s.currentFrame.Some? && s.currentFrame.value != c.frame then Flush(sig, s) else s;
    t.(currentFrame := Some(c.frame), nextSeq := (s.nextSeq + 1) % (MAX64 + 1),
       currentRecords := t.currentRecords + [Record(s.nextSeq, |t.currentRecords| + 1, c.body)])
  }

  function CaptureAll(sig: seq<nat> -> nat, calls: seq<Call>): State {
    if calls == [] then NEW else Capture(sig, CaptureAll(sig, calls[..|calls| - 1]), calls[|calls| - 1])
  }

  /** The frame records code the closed groups, and the open records are the last group. */
  ghost predicate Follows(sig: seq<nat> -> nat, s: State, groups: seq<Group>) {
    match s.currentFrame
    case None => s.currentRecords == [] && Codes(s.frames, groups, sig)
    case Some(f) =>
      && groups != [] && s.currentRecords != [] && groups[|groups| - 1] == Group(f, Bodies(s.currentRecords))
      && Codes(s.frames, groups[..|groups| - 1], sig)
  }

  ghost predicate InOrder(s: State) {
    && Consecutive(s.currentRecords)
    && if s.currentRecords == [] then Numbered(s.frames, s.nextSeq)
       else s.currentRecords[0].seqNo + |s.currentRecords| == s.nextSeq && Numbered(s.frames, s.currentRecords[0].seqNo)
  }

  lemma {:induction false} FlushFollows(sig: seq<nat> -> nat, s: State, groups: seq<Group>)
    requires Follows(sig, s, groups) && Tight(s.frames) && |groups| < MAX64
    ensures Follows(sig, Flush(sig, s), groups) && Tight(Flush(sig, s).frames)
  {
    hide Codes, IsRun;
    if s.currentFrame.Some? {
      var closed, open := groups[..|groups| - 1], groups[|groups| - 1];
      assert groups == closed + [open];
      var n := |s.frames|;
      if n > 0 && s.frames[n - 1].signature == sig(open.bodies) {
        RunsAreShort(s.frames, closed, sig);
        LongerByOne(s.frames, closed, Lengthened(s.frames[n - 1], open.frame), open, sig);
      } else {
        var f := Frame(open.frame, open.frame, 1, sig(open.bodies), s.currentRecords);
        SingleRun(f, open, sig);
        NewRun(s.frames, closed, f, open, sig);
      }
    }
  }

  lemma {:induction false} SingleRun(f: Frame, g: Group, sig: seq<nat> -> nat)
    requires f.first == f.last == g.frame && f.repeats == 1 && f.signature == sig(g.bodies) && Bodies(f.records) == g.bodies
    ensures IsRun(f, [g], sig)
  {
  }

  lemma {:induction false} FlushKeepsOrder(sig: seq<nat> -> nat, s: State)
    requires InOrder(s) && (s.currentFrame == None ==> s.currentRecords == [])
    ensures InOrder(Flush(sig, s)) && Flush(sig, s).nextSeq == s.nextSeq
    ensures Flush(sig, s).currentRecords == []
  {
    hide Consecutive;
    assert Consecutive([]) by { EmptyIsConsecutive(); }
  }

  lemma {:induction false} EmptyIsConsecutive()
    ensures Consecutive([])
  {
  }

  /** A group that goes on, and one that is new. */
  lemma {:induction false} GrownParts(groups: seq<Group>, c: Call)
    ensures var grown := Grown(groups, c);
            if groups != [] && groups[|groups| - 1].frame == c.frame
            then grown[..|grown| - 1] == groups[..|groups| - 1]
                 && grown[|grown| - 1] == Group(c.frame, groups[|groups| - 1].bodies + [c.body])
            else grown[..|grown| - 1] == groups && grown[|grown| - 1] == Group(c.frame, [c.body])
  {
  }

  lemma {:induction false} OneMoreBody(records: seq<Record>, r: Record)
    ensures Bodies(records + [r]) == Bodies(records) + [r.body]
  {
  }

  lemma {:induction false} CaptureFollows(sig: seq<nat> -> nat, s: State, groups: seq<Group>, c: Call)
    requires Follows(sig, s, groups) && Tight(s.frames) && |groups| < MAX64 && (s.currentFrame == None ==> groups == [])
    ensures Follows(sig, Capture(sig, s, c), Grown(groups, c)) && Tight(Capture(sig, s, c).frames)
  {
    hide Codes, Tight, Flush, Grown, Bodies;
    var t := if s.currentFrame.Some? && s.currentFrame.value != c.frame then Flush(sig, s) else s;
    FlushFollows(sig, s, groups);
    OneMoreBody(t.currentRecords, Record(s.nextSeq, |t.currentRecords| + 1, c.body));
    GrownParts(groups, c);
    NoBodies();
  }

  lemma {:induction false} NoBodies()
    ensures Bodies([]) == []
  {
  }

  lemma {:induction false} CaptureKeepsOrder(sig: seq<nat> -> nat, s: State, c: Call)
    requires InOrder(s) && s.nextSeq < MAX64 && (s.currentFrame == None ==> s.currentRecords == [])
    ensures InOrder(Capture(sig, s, c)) && Capture(sig, s, c).nextSeq == s.nextSeq + 1
  {
    FlushKeepsOrder(sig, s);
  }

  /** What holds after every stream of calls. */
  lemma {:induction false} Recorded(sig: seq<nat> -> nat, calls: seq<Call>)
    requires |calls| < MAX64
    ensures var s := CaptureAll(sig, calls);
            && Follows(sig, s, Groups(calls)) && Tight(s.frames) && InOrder(s)
            && s.nextSeq == |calls| + 1 && (s.currentFrame == None <==> calls == [])
  {
    hide Tight, Codes, Follows, InOrder, Capture;
    if calls == [] {
      NothingRecorded(sig);
    } else {
      var before, c := calls[..|calls| - 1], calls[|calls| - 1];
      Recorded(sig, before);
      NoMoreGroupsThanCalls(before);
      var s := CaptureAll(sig, before);
      NoneMeansEmpty(sig, s, Groups(before));
      CaptureFollows(sig, s, Groups(before), c);
      CaptureKeepsOrder(sig, s, c);
      CaptureOpens(sig, s, c);
    }
  }

  lemma {:induction false} NothingRecorded(sig: seq<nat> -> nat)
    ensures Follows(sig, NEW, []) && Tight(NEW.frames) && InOrder(NEW)
  {
  }

  lemma {:induction false} NoneMeansEmpty(sig: seq<nat> -> nat, s: State, groups: seq<Group>)
    requires Follows(sig, s, groups)
    ensures s.currentFrame == None ==> s.currentRecords == []
  {
  }

  lemma {:induction false} CaptureOpens(sig: seq<nat> -> nat, s: State, c: Call)
    ensures Capture(sig, s, c).currentFrame == Some(c.frame)
  {
  }

  /** The fixture of a stream of calls: its frames code the maximal same-frame groups of the stream,
      neighbours differ, expanding them gives the signatures of all groups in order, and the numbers
      go up. */
  lemma {:induction false} FixtureIsTheCode(sig: seq<nat> -> nat, calls: seq<Call>)
    requires |calls| < MAX64
    ensures var fixture := Flush(sig, CaptureAll(sig, calls)).frames;
            && Codes(fixture, Groups(calls), sig) && Tight(fixture)
            && Expand(fixture) == Signatures(Groups(calls), sig)
            && Numbered(fixture, |calls| + 1)
  {
    hide Tight, Codes, Expand, Numbered;
    var s := CaptureAll(sig, calls);
    Recorded(sig, calls);
    NoMoreGroupsThanCalls(calls);
    NoneMeansEmpty(sig, s, Groups(calls));
    FlushFollows(sig, s, Groups(calls));
    FlushKeepsOrder(sig, s);
    ExpandDecodes(Flush(sig, s).frames, Groups(calls), sig);
  }

  class Recorder {
    const sig: seq<nat> -> nat
    var nextSeq: u64
    var currentFrame: Option<u64>
    var currentRecords: seq<Record>
    var frames: seq<Frame>

    ghost function Abs(): State reads this { State(nextSeq, currentFrame, currentRecords, frames) }

    constructor (sig: seq<nat> -> nat)
      ensures Abs() == NEW && this.sig == sig
    {
      this.sig, nextSeq, currentFrame, currentRecords, frames := sig, 1, None, [], [];
    }

    method FlushCurrentFrame()
      modifies this
      ensures Abs() == Flush(sig, old(Abs()))
    {
      if currentFrame.None? { return; }
      if currentRecords == [] {
        currentFrame := None;
        return;
      }
      var frame, signature := currentFrame.value, sig(Bodies(currentRecords));
      if frames != [] && frames[|frames| - 1].signature == signature {
        frames := frames[..|frames| - 1] + [Lengthened(frames[|frames| - 1], frame)];
        currentRecords, currentFrame := [], None;
        return;
      }
      frames := frames + [Frame(frame, frame, 1, signature, currentRecords)];
      currentRecords, currentFrame := [], None;
    }

    method CaptureRecord(frame: u64, body: nat)
      modifies this
      ensures Abs() == Capture(sig, old(Abs()), Call(frame, body))
    {
      match currentFrame {
        case Some(cur) =>
          if cur != frame {
            FlushCurrentFrame();
            currentFrame := Some(frame);
          }
        case None => currentFrame := Some(frame);
      }
      var record := Record(nextSeq, |currentRecords| + 1, body);
      nextSeq := (nextSeq + 1) % (MAX64 + 1);
      currentRecords := currentRecords + [record];
    }

    /** The fixture's frames. */
    method Finalize() returns (fixture: seq<Frame>)
      modifies this
      ensures fixture == Flush(sig, old(Abs())).frames
    {
      FlushCurrentFrame();
      return frames;
    }
  }
}
