/** Choosing the texture of a draw: a chain of fallbacks over the uploads of a session. */
module Textures {
  import opened Prim
  import opened Arith

  /** What the choice looks at in an upload. */
  datatype Upload = Upload(index: nat, width: nat, height: nat, decoded: bool, a8: bool, texName: Option<u32>)

  /** Uploads are stored under their own index. */
  predicate Indexed(us: seq<Upload>) {
    forall i :: 0 <= i < |us| ==> us[i].index == i
  }

  datatype Size = Size(w: nat, h: nat)

  /** Extents of the texture coordinates of a draw. */
  datatype Extents = Extents(minU: real, minV: real, maxU: real, maxV: real)

  /** Half away from zero. */
  function Round(r: real): int {
    if r >= 0.0 then (r + 0.5).Floor else -((0.5 - r).Floor)
  }

  function AtLeastOne(i: int): (n: nat)
    ensures n >= 1
  {
    if i < 1 then 1 else i
  }

  function Span(e: Extents): Size {
    Size(AtLeastOne(Round(e.maxU - e.minU)), AtLeastOne(Round(e.maxV - e.minV)))
  }

  function Need(e: Extents): Size {
    Size(AtLeastOne(-(-e.maxU).Floor), AtLeastOne(-(-e.maxV).Floor))
  }

  predicate Matches(u: Upload, s: Size) { u.decoded && u.width == s.w && u.height == s.h }
  predicate Holds(u: Upload, s: Size) { u.decoded && u.width >= s.w && u.height >= s.h }
  predicate Named(u: Upload, name: u32) { u.decoded && u.texName == Some(name) }

  // ---------------------------------------------------------------- searches

  function First(us: seq<Upload>, p: Upload -> bool): Option<nat> {
    if us == [] then None else if p(us[0]) then Some(us[0].index) else First(us[1..], p)
  }

  function Last(us: seq<Upload>, p: Upload -> bool): Option<nat> {
    if us == [] then None
    else if p(us[|us| - 1]) then Some(us[|us| - 1].index)
    else Last(us[..|us| - 1], p)
  }

  function Area(u: Upload): nat { u.width * u.height }

  predicate Less(u: Upload, w: Upload) { Area(u) < Area(w) || (Area(u) == Area(w) && u.index < w.index) }

  /** The first upload with the least area and index among those that satisfy p. */
  function Least(us: seq<Upload>, p: Upload -> bool): (r: Option<Upload>)
    ensures r.Some? ==> r.value in us && p(r.value)
    ensures r.None? ==> forall u :: u in us ==> !p(u)
  {
    if us == [] then None
    else
      var u, rest := us[|us| - 1], Least(us[..|us| - 1], p);
      if !p(u) then rest
      else if rest == None || Less(u, rest.value) then Some(u)
      else rest
  }

  function IndexOf(r: Option<Upload>): Option<nat> {
    match r case None => None case Some(u) => Some(u.index)
  }

  lemma {:induction false} FirstIsFirst(us: seq<Upload>, p: Upload -> bool) returns (k: nat)
    requires First(us, p).Some?
    ensures k < |us| && p(us[k]) && First(us, p).value == us[k].index && forall j :: 0 <= j < k ==> !p(us[j])
  {
    if p(us[0]) {
      k := 0;
    } else {
      var m := FirstIsFirst(us[1..], p);
      k := m + 1;
      forall j | 0 <= j < k
        ensures !p(us[j])
      {
        assert j > 0 ==> us[j] == us[1..][j - 1];
      }
    }
  }

  lemma {:induction false} LastIsLast(us: seq<Upload>, p: Upload -> bool) returns (k: nat)
    requires Last(us, p).Some?
    ensures k < |us| && p(us[k]) && Last(us, p).value == us[k].index && forall j :: k < j < |us| ==> !p(us[j])
  {
    var n := |us| - 1;
    if p(us[n]) {
      k := n;
    } else {
      k := LastIsLast(us[..n], p);
      forall j | k < j < |us|
        ensures !p(us[j])
      {
        assert j < n ==> us[j] == us[..n][j];
      }
    }
  }

  lemma {:induction false} FirstFinds(us: seq<Upload>, p: Upload -> bool)
    ensures First(us, p).Some? <==> exists u :: u in us && p(u)
    ensures First(us, p).Some? ==> exists u :: u in us && p(u) && u.index == First(us, p).value
  {
    if us != [] {
      FirstFinds(us[1..], p);
      assert us == [us[0]] + us[1..];
    }
  }

  lemma {:induction false} LastFinds(us: seq<Upload>, p: Upload -> bool)
    ensures Last(us, p).Some? <==> exists u :: u in us && p(u)
    ensures Last(us, p).Some? ==> exists u :: u in us && p(u) && u.index == Last(us, p).value
  {
    if us != [] {
      var n := |us| - 1;
      LastFinds(us[..n], p);
      assert us == us[..n] + [us[n]];
    }
  }

  /** Least area, and of those the lowest index. */
  lemma {:induction false} LeastIsLeast(us: seq<Upload>, p: Upload -> bool, u: Upload)
    requires u in us && p(u)
    ensures Least(us, p).Some? && !Less(u, Least(us, p).value)
  {
    var n := |us| - 1;
    if u in us[..n] {
      LeastIsLeast(us[..n], p, u);
    } else {
      assert us == us[..n] + [us[n]] && u == us[n];
    }
  }

  // ---------------------------------------------------------------- the stages

  function OrElse(a: Option<nat>, b: Option<nat>): Option<nat> { if a.Some? then a else b }

  function ByDims(us: seq<Upload>, s: Size): Option<nat> { First(us, u => Matches(u, s)) }

  function ByName(us: seq<Upload>, name: u32): Option<nat> { Last(us, u => Named(u, name)) }

  /** The latest upload of the name, if it is large enough. */
  function ByNameHolding(us: seq<Upload>, name: u32, e: Extents): Option<nat> {
    match ByName(us, name)
    case None => None
    case Some(i) => if i < |us| && us[i].width >= Need(e).w && us[i].height >= Need(e).h then Some(i) else None
  }

  function SmallestHolding(us: seq<Upload>, e: Extents): Option<nat> {
    IndexOf(Least(us, u => Holds(u, Need(e))))
  }

  function ForUvs(us: seq<Upload>, e: Extents): Option<nat> {
    OrElse(ByDims(us, Span(e)), SmallestHolding(us, e))
  }

  function ForNamedUvs(us: seq<Upload>, name: u32, e: Extents): Option<nat> {
    OrElse(Last(us, u => Named(u, name) && Matches(u, Span(e))),
           IndexOf(Least(us, u => Named(u, name) && Holds(u, Need(e)))))
  }

  /** Generated text: a font atlas of whole cells, at least 32 to the row. */
  predicate Atlas(u: Upload, cell: Size)
    requires cell.w > 0 && cell.h > 0
  {
    u.a8 && u.width % cell.w == 0 && u.height % cell.h == 0 && u.width / cell.w >= 32
  }

  function ForText(us: seq<Upload>, e: Extents): Option<nat> {
    var cell := Size(Span(e).w + 1, Span(e).h + 1);
    OrElse(IndexOf(Least(us, u => Holds(u, Need(e)) && Atlas(u, cell))), SmallestHolding(us, e))
  }

  /** The choice for a draw with texture coordinates of its own. */
  function Select(us: seq<Upload>, handle: u32, statePtr: u32, e: Extents): Option<nat> {
    OrElse(WithoutState(us, handle, e), ByState(us, handle, statePtr, e))
  }

  function WithoutState(us: seq<Upload>, handle: u32, e: Extents): Option<nat> {
    OrElse(ByNameHolding(us, handle, e), OrElse(ForNamedUvs(us, handle, e), ForUvs(us, e)))
  }

  /** The last resort: the state pointer taken for a name. */
  function ByState(us: seq<Upload>, handle: u32, statePtr: u32, e: Extents): Option<nat> {
    if statePtr != 0 && statePtr < 0x1000_0000 && statePtr != handle then ForNamedUvs(us, statePtr, e) else None
  }

  /** The choice for a draw with generated coordinates. */
  function SelectText(us: seq<Upload>, handle: u32, e: Extents): Option<nat> {
    OrElse(ByNameHolding(us, handle, e), ForText(us, e))
  }

  predicate Suits(u: Upload, e: Extents) { Matches(u, Span(e)) || Holds(u, Need(e)) }

  // ---------------------------------------------------------------- the tests in numbers

  /** n texels are what an extent of d rounds to, and at least one. */
  predicate Rounds(n: nat, d: real) {
    n >= 1 && (n == 1 || n as real - 0.5 <= d) && d < n as real + 0.5
  }

  lemma RoundsExactly(n: nat, d: real)
    ensures n == AtLeastOne(Round(d)) <==> Rounds(n, d)
  {
  }

  lemma CeilingExactly(n: nat, d: real)
    ensures n >= AtLeastOne(-(-d).Floor) <==> n >= 1 && n as real >= d
  {
  }

  /** The size of the span: to the nearest texel. */
  lemma MatchesInNumbers(u: Upload, e: Extents)
    ensures Matches(u, Span(e)) <==> SpanSized(u, e)
  {
    RoundsExactly(u.width, e.maxU - e.minU);
    RoundsExactly(u.height, e.maxV - e.minV);
  }

  /** The upload has the size of the span. */
  predicate SpanSized(u: Upload, e: Extents) {
    u.decoded && Rounds(u.width, e.maxU - e.minU) && Rounds(u.height, e.maxV - e.minV)
  }

  /** Large enough: the largest coordinates lie in the texture. */
  predicate Contains(u: Upload, e: Extents) {
    u.decoded && u.width >= 1 && u.height >= 1 && u.width as real >= e.maxU && u.height as real >= e.maxV
  }

  lemma HoldsInNumbers(u: Upload, e: Extents)
    ensures Holds(u, Need(e)) <==> Contains(u, e)
  {
    CeilingExactly(u.width, e.maxU);
    CeilingExactly(u.height, e.maxV);
  }

  /** A font atlas is a grid of cells, at least 32 in a row. */
  lemma AtlasIsGrid(u: Upload, cell: Size)
    requires cell.w > 0 && cell.h > 0
    ensures Atlas(u, cell) <==>
            u.a8 && exists columns: nat, rows: nat ::
              columns >= 32 && u.width == columns * cell.w && u.height == rows * cell.h
  {
    Divide(u.width, cell.w);
    Divide(u.height, cell.h);
    if Atlas(u, cell) {
      assert u.width == u.width / cell.w * cell.w && u.height == u.height / cell.h * cell.h;
    }
    if columns: nat, rows: nat :| columns >= 32 && u.width == columns * cell.w && u.height == rows * cell.h {
      Quotient(columns, 0, cell.w);
      Quotient(rows, 0, cell.h);
    }
  }

  // ---------------------------------------------------------------- what is chosen

  lemma IndexedMember(us: seq<Upload>, u: Upload)
    requires Indexed(us) && u in us
    ensures u.index < |us| && us[u.index] == u
  {
    var i :| 0 <= i < |us| && us[i] == u;
  }

  lemma NameHoldingSuits(us: seq<Upload>, name: u32, e: Extents)
    requires Indexed(us) && ByNameHolding(us, name, e).Some?
    ensures var i := ByNameHolding(us, name, e).value; i < |us| && Holds(us[i], Need(e))
  {
    LastFinds(us, u => Named(u, name));
    var u :| u in us && Named(u, name) && u.index == ByName(us, name).value;
    IndexedMember(us, u);
  }

  lemma NamedUvsSuit(us: seq<Upload>, name: u32, e: Extents)
    requires Indexed(us) && ForNamedUvs(us, name, e).Some?
    ensures var i := ForNamedUvs(us, name, e).value; i < |us| && Suits(us[i], e)
  {
    var p := (u: Upload) => Named(u, name) && Matches(u, Span(e));
    LastFinds(us, p);
    if Last(us, p).Some? {
      var u :| u in us && p(u) && u.index == Last(us, p).value;
      IndexedMember(us, u);
    } else {
      IndexedMember(us, Least(us, u => Named(u, name) && Holds(u, Need(e))).value);
    }
  }

  lemma UvsSuit(us: seq<Upload>, e: Extents)
    requires Indexed(us) && ForUvs(us, e).Some?
    ensures var i := ForUvs(us, e).value; i < |us| && Suits(us[i], e)
  {
    var p := (u: Upload) => Matches(u, Span(e));
    FirstFinds(us, p);
    if First(us, p).Some? {
      var u :| u in us && p(u) && u.index == First(us, p).value;
      IndexedMember(us, u);
    } else {
      IndexedMember(us, Least(us, u => Holds(u, Need(e))).value);
    }
  }

  lemma UvsMissNothing(us: seq<Upload>, e: Extents, u: Upload)
    requires u in us && Suits(u, e)
    ensures ForUvs(us, e).Some?
  {
    FirstFinds(us, w => Matches(w, Span(e)));
    if Holds(u, Need(e)) { LeastIsLeast(us, w => Holds(w, Need(e)), u); }
  }

  /** Selection is complete: it fails exactly when no decoded upload has the size of the coordinate
      span or holds the largest coordinates; what it selects does one or the other. */
  lemma SelectsExactly(us: seq<Upload>, handle: u32, statePtr: u32, e: Extents)
    requires Indexed(us)
    ensures Select(us, handle, statePtr, e) == None <==> forall u :: u in us ==> !Suits(u, e)
    ensures Select(us, handle, statePtr, e).Some? ==>
              var i := Select(us, handle, statePtr, e).value; i < |us| && Suits(us[i], e)
  {
    if u :| u in us && Suits(u, e) { UvsMissNothing(us, e, u); }
    if ByNameHolding(us, handle, e).Some? { NameHoldingSuits(us, handle, e); }
    if ForNamedUvs(us, handle, e).Some? { NamedUvsSuit(us, handle, e); }
    if ForUvs(us, e).Some? { UvsSuit(us, e); }
    if ForNamedUvs(us, statePtr, e).Some? { NamedUvsSuit(us, statePtr, e); }
    var chosen := Select(us, handle, statePtr, e);
    assert chosen.Some? ==> us[chosen.value] in us;
  }

  /** The fallback to the state pointer never changes the outcome. */
  lemma StateNeverDecides(us: seq<Upload>, handle: u32, statePtr: u32, e: Extents)
    requires Indexed(us)
    ensures Select(us, handle, statePtr, e) == WithoutState(us, handle, e)
  {
    if WithoutState(us, handle, e) == None && ForNamedUvs(us, statePtr, e).Some? {
      NamedUvsSuit(us, statePtr, e);
      var i := ForNamedUvs(us, statePtr, e).value;
      UvsMissNothing(us, e, us[i]);
      assert false;
    }
  }

  /** The containing stage returns the upload of least area, and of those the lowest index. */
  lemma SmallestIsSmallest(us: seq<Upload>, e: Extents, j: nat)
    requires Indexed(us) && j < |us| && Contains(us[j], e)
    ensures SmallestHolding(us, e).Some?
    ensures var i := SmallestHolding(us, e).value;
            && i < |us| && Contains(us[i], e) && us[i].width * us[i].height <= us[j].width * us[j].height
            && (us[i].width * us[i].height == us[j].width * us[j].height ==> i <= j)
  {
    hide Contains, Need;
    HoldsInNumbers(us[j], e);
    var p := (u: Upload) => Holds(u, Need(e));
    LeastIsLeast(us, p, us[j]);
    IndexedMember(us, Least(us, p).value);
    HoldsInNumbers(Least(us, p).value, e);
  }

  /** For generated coordinates: nothing is selected iff nothing decoded holds them. */
  lemma TextSelectsExactly(us: seq<Upload>, handle: u32, e: Extents)
    requires Indexed(us)
    ensures SelectText(us, handle, e) == None <==> forall u :: u in us ==> !Holds(u, Need(e))
    ensures SelectText(us, handle, e).Some? ==>
              var i := SelectText(us, handle, e).value; i < |us| && Holds(us[i], Need(e))
  {
    var cell := Size(Span(e).w + 1, Span(e).h + 1);
    var fonts := Least(us, u => Holds(u, Need(e)) && Atlas(u, cell));
    var holding := Least(us, u => Holds(u, Need(e)));
    if ByNameHolding(us, handle, e).Some? { NameHoldingSuits(us, handle, e); }
    if fonts.Some? { IndexedMember(us, fonts.value); }
    if holding.Some? { IndexedMember(us, holding.value); }
  }

  /** The latest upload that carries the handle as its name wins if it is large enough. */
  lemma NameWins(us: seq<Upload>, handle: u32, statePtr: u32, e: Extents, k: nat)
    requires Indexed(us) && k < |us| && us[k].texName == Some(handle) && Contains(us[k], e)
    requires forall j :: k < j < |us| ==> !(us[j].decoded && us[j].texName == Some(handle))
    ensures Select(us, handle, statePtr, e) == SelectText(us, handle, e) == Some(k)
  {
    HoldsInNumbers(us[k], e);
    var p := (u: Upload) => Named(u, handle);
    LastFinds(us, p);
    assert us[k] in us && p(us[k]);
    var m := LastIsLast(us, p);
    assert m == k;
  }

  /** With no upload of that name, the first of exactly the size of the span comes before any that
      is merely large enough. */
  lemma ExactSizeBeforeLargeEnough(us: seq<Upload>, handle: u32, statePtr: u32, e: Extents, k: nat)
    requires Indexed(us) && k < |us| && SpanSized(us[k], e)
    requires forall j :: 0 <= j < |us| ==> !(us[j].decoded && us[j].texName == Some(handle))
    requires forall j :: 0 <= j < k ==> !SpanSized(us[j], e)
    ensures Select(us, handle, statePtr, e) == Some(k)
  {
    hide SpanSized, Span;
    forall u: Upload
      ensures Matches(u, Span(e)) <==> SpanSized(u, e)
    {
      MatchesInNumbers(u, e);
    }
    LastFinds(us, u => Named(u, handle));
    LastFinds(us, u => Named(u, handle) && Matches(u, Span(e)));
    var p := (u: Upload) => Matches(u, Span(e));
    FirstFinds(us, p);
    assert us[k] in us && p(us[k]);
    var m := FirstIsFirst(us, p);
    assert m == k;
  }

  /** If an upload that carries the name suits the draw at all, the one chosen carries the name. */
  lemma NamedFirst(us: seq<Upload>, handle: u32, statePtr: u32, e: Extents, k: nat)
    requires Indexed(us) && k < |us| && us[k].texName == Some(handle) && (SpanSized(us[k], e) || Contains(us[k], e))
    ensures var chosen := Select(us, handle, statePtr, e);
            && chosen.Some? && chosen.value < |us| && us[chosen.value].texName == Some(handle)
            && (SpanSized(us[chosen.value], e) || Contains(us[chosen.value], e))
  {
    hide Contains, SpanSized, Need, Span;
    var p := (u: Upload) => Named(u, handle) && Matches(u, Span(e));
    var p' := (u: Upload) => Named(u, handle) && Holds(u, Need(e));
    MatchesInNumbers(us[k], e);
    HoldsInNumbers(us[k], e);
    LastFinds(us, p);
    if Holds(us[k], Need(e)) { LeastIsLeast(us, p', us[k]); }
    SelectsExactly(us, handle, statePtr, e);
    if ByNameHolding(us, handle, e).Some? {
      LastFinds(us, u => Named(u, handle));
      var u :| u in us && Named(u, handle) && u.index == ByName(us, handle).value;
      IndexedMember(us, u);
    } else if Last(us, p).Some? {
      var u :| u in us && p(u) && u.index == Last(us, p).value;
      IndexedMember(us, u);
    } else {
      IndexedMember(us, Least(us, p').value);
    }
    assert us[k] in us && Suits(us[k], e);
    var i := Select(us, handle, statePtr, e).value;
    MatchesInNumbers(us[i], e);
    HoldsInNumbers(us[i], e);
  }

  /** A font atlas for cells of w by h: large enough, and a grid of them with at least 32 to the row. */
  ghost predicate FontOf(u: Upload, w: nat, h: nat, e: Extents) {
    && Contains(u, e) && u.a8
    && exists columns: nat, rows: nat :: columns >= 32 && u.width == columns * w && u.height == rows * h
  }

  /** Generated text goes to a font atlas whose cells are one texel larger than the span, if there is one,
      the smallest of them. */
  lemma TextPrefersAtlas(us: seq<Upload>, handle: u32, e: Extents, w: nat, h: nat, j: nat)
    requires Indexed(us) && Rounds(w, e.maxU - e.minU) && Rounds(h, e.maxV - e.minV)
    requires j < |us| && FontOf(us[j], w + 1, h + 1, e)
    requires ByNameHolding(us, handle, e) == None
    ensures SelectText(us, handle, e).Some?
    ensures var i := SelectText(us, handle, e).value;
            i < |us| && FontOf(us[i], w + 1, h + 1, e) && us[i].width * us[i].height <= us[j].width * us[j].height
  {
    RoundsExactly(w, e.maxU - e.minU);
    RoundsExactly(h, e.maxV - e.minV);
    hide Contains, Need, Rounds, Round, AtLeastOne;
    var cell := Size(w + 1, h + 1);
    assert cell == Size(Span(e).w + 1, Span(e).h + 1);
    var p := (u: Upload) => Holds(u, Need(e)) && Atlas(u, cell);
    HoldsInNumbers(us[j], e);
    AtlasIsGrid(us[j], cell);
    assert us[j] in us && p(us[j]);
    LeastIsLeast(us, p, us[j]);
    var chosen := Least(us, p).value;
    IndexedMember(us, chosen);
    HoldsInNumbers(chosen, e);
    AtlasIsGrid(chosen, cell);
  }

  /** The choice in terms of the coordinates themselves: it fails exactly when no decoded upload rounds to
      the span or contains the largest coordinates, and what it chooses does one or the other. */
  lemma SelectsInNumbers(us: seq<Upload>, handle: u32, statePtr: u32, e: Extents)
    requires Indexed(us)
    ensures var suits := (u: Upload) => Contains(u, e) || SpanSized(u, e);
            var chosen := Select(us, handle, statePtr, e);
            && (chosen == None <==> forall u :: u in us ==> !suits(u))
            && (chosen.Some? ==> chosen.value < |us| && suits(us[chosen.value]))
  {
    hide Select, Span, Need, SpanSized, Contains;
    SelectsExactly(us, handle, statePtr, e);
    forall u: Upload
      ensures Suits(u, e) <==> Contains(u, e) || SpanSized(u, e)
    {
      MatchesInNumbers(u, e);
      HoldsInNumbers(u, e);
    }
  }
}
