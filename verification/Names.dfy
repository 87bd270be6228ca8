/** The order of HFS+ catalog names: case folding with a short table, ignorable characters, and the
    loop that compares two names character by character. */
module Names {
  import opened Prim

  /** Characters that are skipped in comparisons. */
  predicate Ignorable(c: u16) {
    c == 0xfeff || 0x200c <= c <= 0x200f || 0x202a <= c <= 0x202e || 0x206a <= c <= 0x206f
  }

  /** The value a character is compared by; 0 for one that is skipped. */
  function Fold(c: u16): u16 {
    if c == 0 then 0xffff
    else if 0x41 <= c <= 0x5a || c == 0xc6 then c + 0x20
    else if c == 0xd0 || c == 0xd8 || c == 0xde then c + 0x20
    else if Ignorable(c) then 0
    else c
  }

  /** What a name is compared by. */
  function Significant(name: seq<u16>): seq<u16> {
    if name == [] then []
    else if Fold(name[0]) == 0 then Significant(name[1..])
    else [Fold(name[0])] + Significant(name[1..])
  }

  /** Lexicographic order: -1, 0 or 1. */
  function Lex(a: seq<u16>, b: seq<u16>): int {
    if a == [] then (if b == [] then 0 else -1)
    else if b == [] then 1
    else if a[0] < b[0] then -1
    else if a[0] > b[0] then 1
    else Lex(a[1..], b[1..])
  }

  lemma {:induction false} LexFlip(a: seq<u16>, b: seq<u16>)
    ensures Lex(b, a) == -Lex(a, b)
  {
    if a != [] && b != [] { LexFlip(a[1..], b[1..]); }
  }

  lemma {:induction false} LexEqual(a: seq<u16>, b: seq<u16>)
    ensures Lex(a, b) == 0 <==> a == b
  {
    if a != [] && b != [] {
      LexEqual(a[1..], b[1..]);
      assert a == [a[0]] + a[1..] && b == [b[0]] + b[1..];
    }
  }

  lemma {:induction false} LexTransitive(a: seq<u16>, b: seq<u16>, c: seq<u16>)
    requires Lex(a, b) <= 0 && Lex(b, c) <= 0
    ensures Lex(a, c) <= 0
    ensures Lex(a, b) < 0 || Lex(b, c) < 0 ==> Lex(a, c) < 0
  {
    if a != [] && b != [] && c != [] && a[0] == b[0] == c[0] { LexTransitive(a[1..], b[1..], c[1..]); }
  }

  /** The next character from `at` on that is not skipped, 0 if there is none. */
  method NextSignificant(name: seq<u16>, at: nat) returns (c: u16, next: nat)
    requires at <= |name|
    ensures at <= next <= |name|
    ensures c == 0 ==> next == |name| && Significant(name[at..]) == []
    ensures c != 0 ==> at < next && Significant(name[at..]) == [c] + Significant(name[next..])
  {
    c, next := 0, at;
    while next < |name| && c == 0
      invariant at <= next <= |name|
      invariant c == 0 ==> Significant(name[at..]) == Significant(name[next..])
      invariant c != 0 ==> at < next && Significant(name[at..]) == [c] + Significant(name[next..])
    {
      assert name[next..][1..] == name[next + 1..];
      c := Fold(name[next]);
      next := next + 1;
    }
  }

  /** The comparison loop decides the lexicographic order of what is significant in the names; it finds
      them equal iff they have the same letters. */
  method CompareNames(a: seq<u16>, b: seq<u16>) returns (r: int)
    ensures r == Lex(Significant(a), Significant(b))
    ensures r == 0 <==> SameLetters(Visible(a), Visible(b))
  {
    EqualExactly(a, b);
    var i, j := 0, 0;
    assert a[0..] == a && b[0..] == b;
    while true
      invariant i <= |a| && j <= |b|
      invariant Lex(Significant(a), Significant(b)) == Lex(Significant(a[i..]), Significant(b[j..]))
      decreases |a| - i
    {
      var c, d;
      c, i := NextSignificant(a, i);
      d, j := NextSignificant(b, j);
      if c != d { return if c < d then -1 else 1; }
      if c == 0 { return 0; }
    }
  }

  // ---------------------------------------------------------------- what that means for the characters

  /** The characters that do not count. */
  const SKIPPED: set<u16> :=
    {0x200c, 0x200d, 0x200e, 0x200f, 0x202a, 0x202b, 0x202c, 0x202d, 0x202e,
     0x206a, 0x206b, 0x206c, 0x206d, 0x206e, 0x206f, 0xfeff}

  /** An upper case letter and its lower case form: A to Z, AE, Eth, O with stroke and Thorn. */
  predicate CasePair(upper: u16, lower: u16) {
    || (0x41 <= upper <= 0x5a && lower - 0x61 == upper - 0x41)
    || (upper == 0xc6 && lower == 0xe6) || (upper == 0xd0 && lower == 0xf0)
    || (upper == 0xd8 && lower == 0xf8) || (upper == 0xde && lower == 0xfe)
  }

  /** Characters the comparison takes for the same; the null character goes with the last of all. */
  predicate SameLetter(c: u16, d: u16) {
    c == d || CasePair(c, d) || CasePair(d, c) || (c == 0 && d == 0xffff) || (c == 0xffff && d == 0)
  }

  /** Characters in order: by number, with an upper case letter where its lower case form is, and the null
      character behind all others. */
  ghost predicate LetterBefore(c: u16, d: u16) {
    exists x: u16, y: u16 :: SameLetter(c, x) && SameLetter(d, y) && NoUpper(x) && NoUpper(y) && 0 < x < y
  }

  ghost predicate NoUpper(c: u16) { forall lower: u16 :: !CasePair(c, lower) }

  /** A name without the characters that do not count. */
  function Visible(name: seq<u16>): seq<u16> {
    if name == [] then []
    else (if name[0] in SKIPPED then [] else [name[0]]) + Visible(name[1..])
  }

  predicate SameLetters(a: seq<u16>, b: seq<u16>) {
    |a| == |b| && forall i :: 0 <= i < |a| ==> SameLetter(a[i], b[i])
  }

  lemma FoldSkips(c: u16)
    ensures Fold(c) == 0 <==> c in SKIPPED
  {
  }

  lemma FoldSame(c: u16, d: u16)
    requires c !in SKIPPED && d !in SKIPPED
    ensures Fold(c) == Fold(d) <==> SameLetter(c, d)
  {
  }

  lemma {:induction false} SignificantIsVisible(name: seq<u16>)
    ensures |Significant(name)| == |Visible(name)|
    ensures forall i :: 0 <= i < |Visible(name)| ==>
              Visible(name)[i] !in SKIPPED && Significant(name)[i] == Fold(Visible(name)[i])
  {
    hide Fold;
    if name != [] {
      FoldSkips(name[0]);
      SignificantIsVisible(name[1..]);
    }
  }

  /** Two names compare as equal exactly when, without the characters that do not count, they have the
      same letters. */
  lemma EqualExactly(a: seq<u16>, b: seq<u16>)
    ensures Lex(Significant(a), Significant(b)) == 0 <==> SameLetters(Visible(a), Visible(b))
  {
    hide Fold, SameLetter;
    LexEqual(Significant(a), Significant(b));
    SignificantIsVisible(a);
    SignificantIsVisible(b);
    forall i | 0 <= i < |Visible(a)| && i < |Visible(b)|
      ensures Significant(a)[i] == Significant(b)[i] <==> SameLetter(Visible(a)[i], Visible(b)[i])
    {
      FoldSame(Visible(a)[i], Visible(b)[i]);
    }
  }

  lemma {:induction false} SignificantJoins(a: seq<u16>, b: seq<u16>)
    ensures Significant(a + b) == Significant(a) + Significant(b)
  {
    hide Fold;
    if a == [] {
      assert a + b == b;
    } else {
      assert (a + b)[1..] == a[1..] + b;
      SignificantJoins(a[1..], b);
    }
  }

  lemma SignificantOne(c: u16)
    ensures Significant([c]) == if c in SKIPPED then [] else [Fold(c)]
  {
    hide Fold;
    FoldSkips(c);
    assert [c][1..] == [];
  }

  /** A character that does not count can stand anywhere in a name. */
  lemma SkippedAnywhere(a: seq<u16>, c: u16, b: seq<u16>, other: seq<u16>)
    requires c in SKIPPED
    ensures Lex(Significant(a + [c] + b), Significant(other)) == Lex(Significant(a + b), Significant(other))
    ensures Lex(Significant(other), Significant(a + [c] + b)) == Lex(Significant(other), Significant(a + b))
  {
    hide Fold;
    SignificantOne(c);
    SignificantJoins(a + [c], b);
    SignificantJoins(a, [c]);
    SignificantJoins(a, b);
    assert Significant(a) + [] == Significant(a);
  }

  lemma {:induction false} LexCommon(p: seq<u16>, a: seq<u16>, b: seq<u16>)
    ensures Lex(p + a, p + b) == Lex(a, b)
  {
    if p == [] {
      assert p + a == a && p + b == b;
    } else {
      assert (p + a)[1..] == p[1..] + a && (p + b)[1..] == p[1..] + b;
      LexCommon(p[1..], a, b);
    }
  }

  lemma FoldBefore(c: u16, d: u16)
    requires c !in SKIPPED && d !in SKIPPED
    ensures Fold(c) < Fold(d) <==> LetterBefore(c, d)
  {
    FoldForm(c);
    FoldForm(d);
    if Fold(c) < Fold(d) {
      assert SameLetter(c, Fold(c)) && SameLetter(d, Fold(d));
    }
    if LetterBefore(c, d) {
      var x: u16, y: u16 :| SameLetter(c, x) && SameLetter(d, y) && NoUpper(x) && NoUpper(y) && 0 < x < y;
      FoldUnique(c, x);
      FoldUnique(d, y);
    }
  }

  /** The folded form of a letter: the same letter, and not an upper case one. */
  lemma FoldForm(c: u16)
    requires c !in SKIPPED
    ensures SameLetter(c, Fold(c)) && NoUpper(Fold(c)) && Fold(c) > 0
  {
  }

  lemma FoldUnique(c: u16, x: u16)
    requires c !in SKIPPED && SameLetter(c, x) && NoUpper(x) && x > 0
    ensures x == Fold(c)
  {
    if 0x41 <= x <= 0x5a { assert CasePair(x, x + 0x20); }
    if x == 0xc6 || x == 0xd0 || x == 0xd8 || x == 0xde { assert CasePair(x, x + 0x20); }
  }

  /** Where names first differ, the letters there decide. */
  lemma FirstDifference(p: seq<u16>, c: u16, a: seq<u16>, q: seq<u16>, d: u16, b: seq<u16>)
    requires SameLetters(Visible(p), Visible(q)) && c !in SKIPPED && d !in SKIPPED && !SameLetter(c, d)
    ensures Lex(Significant(p + [c] + a), Significant(q + [d] + b)) == if LetterBefore(c, d) then -1 else 1
  {
    hide Fold, LetterBefore, SameLetter, Visible;
    Split(p, c, a);
    Split(q, d, b);
    EqualExactly(p, q);
    LexEqual(Significant(p), Significant(q));
    LexCommon(Significant(p), [Fold(c)] + Significant(a), [Fold(d)] + Significant(b));
    FoldSame(c, d);
    FoldBefore(c, d);
  }

  lemma Split(p: seq<u16>, c: u16, a: seq<u16>)
    requires c !in SKIPPED
    ensures Significant(p + [c] + a) == Significant(p) + ([Fold(c)] + Significant(a))
  {
    hide Fold;
    SignificantJoins(p + [c], a);
    SignificantJoins(p, [c]);
    SignificantOne(c);
  }

  /** A name that goes on comes behind one that ends there. */
  lemma ShorterFirst(p: seq<u16>, q: seq<u16>, d: u16, b: seq<u16>)
    requires SameLetters(Visible(p), Visible(q)) && d !in SKIPPED
    ensures Lex(Significant(p), Significant(q + [d] + b)) == -1
  {
    hide Fold, SameLetter, Visible;
    Split(q, d, b);
    EqualExactly(p, q);
    LexEqual(Significant(p), Significant(q));
    LexCommon(Significant(p), [], [Fold(d)] + Significant(b));
    assert Significant(p) + [] == Significant(p);
  }

  /** The null character comes behind every other but the last. */
  lemma NullIsLast(c: u16)
    requires c != 0 && c != 0xffff
    ensures LetterBefore(c, 0) && !LetterBefore(0, c)
  {
    var x := if 0x41 <= c <= 0x5a || c == 0xc6 || c == 0xd0 || c == 0xd8 || c == 0xde then c + 0x20 else c;
    assert SameLetter(c, x) && SameLetter(0, 0xffff) && NoUpper(x) && NoUpper(0xffff);
  }
}
