/** The loader's number printer and parser: digits written backwards into a small buffer, sign and
    padding, and reading the number back. */
module Numbers {
  import opened Prim
  import opened Arith

  const MINUS: u8 := 45
  const PLUS: u8 := 43
  const ZERO: u8 := 48
  const SPACE: u8 := 32
  const BUFLEN := 16

  // ---------------------------------------------------------------- digits

  function DigitChar(d: nat, capitals: bool): u8
    requires d < 16
  {
    if d < 10 then ZERO + d else d - 10 + (if capitals then 65 else 97)
  }

  /** The digits of a number, the leading one first; 0 has one digit. */
  function Digits(n: nat, radix: nat, capitals: bool): (s: seq<u8>)
    requires 2 <= radix <= 16
    ensures |s| > 0
  {
    if n < radix then [DigitChar(n, capitals)]
    else Digits(n / radix, radix, capitals) + [DigitChar(n % radix, capitals)]
  }

  function DigitValue(c: u8): int { if c < 58 then c - ZERO else if c < 71 then c - 55 else c - 87 }

  function Decoded(s: seq<u8>, radix: nat): int {
    if s == [] then 0 else Decoded(s[..|s| - 1], radix) * radix + DigitValue(s[|s| - 1])
  }

  lemma DecodedLast(s: seq<u8>, d: nat, radix: nat, capitals: bool)
    requires d < 16
    ensures Decoded(s + [DigitChar(d, capitals)], radix) == Decoded(s, radix) * radix + d
  {
    assert (s + [DigitChar(d, capitals)])[..|s|] == s;
  }

  /** In every radix and either case the digits stand for the number. */
  lemma {:induction false} DigitsDecode(n: nat, radix: nat, capitals: bool)
    requires 2 <= radix <= 16
    ensures Decoded(Digits(n, radix, capitals), radix) == n
  {
    hide Decoded, DigitChar, DigitValue;
    if n < radix {
      DecodedLast([], n, radix, capitals);
      NothingDecoded(radix);
      assert [] + [DigitChar(n, capitals)] == [DigitChar(n, capitals)];
    } else {
      DigitsDecode(n / radix, radix, capitals);
      DecodedLast(Digits(n / radix, radix, capitals), n % radix, radix, capitals);
      Divide(n, radix);
    }
  }

  lemma NothingDecoded(radix: nat)
    ensures Decoded([], radix) == 0
  {
  }

  /** A 32-bit number has at most eleven digits in any radix from 8 on. */
  lemma {:induction false} FewDigits(n: nat, radix: nat, capitals: bool, k: nat)
    requires 8 <= radix <= 16 && n < Power8(k) && k > 0
    ensures |Digits(n, radix, capitals)| <= k
  {
    if n >= radix {
      assert k > 1 by { assert k == 1 ==> Power8(k) == 8; }
      QuotientBelow(n, radix, Power8(k - 1));
      FewDigits(n / radix, radix, capitals, k - 1);
    }
  }

  function Power8(k: nat): nat { if k == 0 then 1 else 8 * Power8(k - 1) }

  lemma QuotientBelow(n: nat, radix: nat, p: nat)
    requires radix >= 8 && n < 8 * p
    ensures n / radix < p
  {
    var q := n / radix;
    Divide(n, radix);
    ProductOrder(q, p, radix);
    ProductOrder(radix, 8, p);
  }

  /** Writes the digits of `num` backwards from the end of the buffer; `where` never leaves it. */
  method WriteDigits(buf: array<u8>, num: u32, radix: nat, capitals: bool) returns (where: nat)
    requires buf.Length == BUFLEN && (radix == 8 || radix == 10 || radix == 16)
    modifies buf
    ensures 4 <= where < 15 && buf[where..15] == Digits(num, radix, capitals) && buf[15] == 0
  {
    hide Digits, DigitChar;
    var n: nat := num;
    buf[15] := 0;
    where := 15;
    var more := true;
    assert Power8(11) == 0x2_0000_0000;
    FewDigits(num, radix, capitals, 11);
    while more
      invariant where <= 15 && buf[15] == 0
      invariant more ==> Digits(num, radix, capitals) == Digits(n, radix, capitals) + buf[where..15]
      invariant !more ==> Digits(num, radix, capitals) == buf[where..15]
      decreases more, n
    {
      var tail := buf[where..15];
      var all := Digits(num, radix, capitals);
      assert |all| == |Digits(n, radix, capitals)| + |tail|;
      where := PutDigit(buf, where, DigitChar(n % radix, capitals));
      more := n / radix != 0;
      Leading(n, radix, capitals);
      n := n / radix;
    }
  }

  method PutDigit(buf: array<u8>, where: nat, c: u8) returns (before: nat)
    requires 0 < where <= 15 && buf.Length == BUFLEN
    modifies buf
    ensures before == where - 1 && buf[before..15] == [c] + old(buf[where..15]) && buf[15] == old(buf[15])
  {
    before := where - 1;
    buf[before] := c;
  }

  lemma Leading(n: nat, radix: nat, capitals: bool)
    requires 2 <= radix <= 16
    ensures n / radix == 0 ==> Digits(n, radix, capitals) == [DigitChar(n % radix, capitals)]
    ensures n / radix != 0 ==>
              Digits(n, radix, capitals) == Digits(n / radix, radix, capitals) + [DigitChar(n % radix, capitals)]
    ensures n / radix != 0 ==> n / radix < n
  {
    ZeroQuotient(n, radix);
    if n < radix { assert n % radix == n by { Quotient(0, n, radix); } }
  }

  lemma ZeroQuotient(n: nat, d: nat)
    requires d > 1
    ensures n / d == 0 <==> n < d
    ensures n / d != 0 ==> n / d < n
  {
    var q := n / d;
    Divide(n, d);
    ProductOrder(q, 1, d);
    ProductOrder(d, 2, q);
  }

  // ---------------------------------------------------------------- sign and padding

  datatype Flags = Flags(left: bool, zeros: bool)

  function Repeat(c: u8, n: nat): (s: seq<u8>)
    ensures |s| == n
  {
    seq<u8>(n, _ => c)
  }

  /** The characters a number has before padding. */
  function Natural(neg: bool, digits: seq<u8>): nat { |digits| + (if neg then 1 else 0) }

  function Padding(neg: bool, digits: seq<u8>, width: nat): nat {
    if width > Natural(neg, digits) then width - Natural(neg, digits) else 0
  }

  /** Spaces go before the sign, zeros after it, and nothing but spaces to the right. */
  function Layout(neg: bool, digits: seq<u8>, flags: Flags, width: nat): seq<u8> {
    var pad := Padding(neg, digits, width);
    var sign := if neg then [MINUS] else [];
    if flags.left then sign + digits + Repeat(SPACE, pad)
    else if flags.zeros then sign + Repeat(ZERO, pad) + digits
    else Repeat(SPACE, pad) + sign + digits
  }

  lemma LayoutLength(neg: bool, digits: seq<u8>, flags: Flags, width: nat)
    ensures |Layout(neg, digits, flags, width)| == if width > Natural(neg, digits) then width else Natural(neg, digits)
  {
  }

  /** Emits sign, padding and digits, and counts what it emits. */
  method Emit(digits: seq<u8>, neg: bool, flags: Flags, width: nat) returns (out: seq<u8>, count: nat)
    ensures out == Layout(neg, digits, flags, width)
    ensures count == |out| && count == if width > Natural(neg, digits) then width else Natural(neg, digits)
  {
    hide Repeat;
    var actual := |digits| + (if neg then 1 else 0);
    var given := width;
    out := [];
    if neg && flags.zeros { out := out + [MINUS]; }
    if !flags.left {
      var c := if flags.zeros then ZERO else SPACE;
      out, given := PadTo(out, c, given, actual);
    }
    if neg && !flags.zeros { out := out + [MINUS]; }
    out := out + digits;
    assert !flags.left ==> out == Layout(neg, digits, flags, width);
    assert flags.left ==> out == (if neg then [MINUS] else []) + digits;
    given := if given < actual then 0 else given - actual;
    var rest;
    NoPadding(out);
    out, rest := PadTo(out, SPACE, given, 0);
    count := |out|;
    LayoutLength(neg, digits, flags, width);
  }

  lemma NoPadding(s: seq<u8>)
    ensures s + Repeat(SPACE, 0) == s
  {
  }

  method PadTo(out: seq<u8>, c: u8, given: nat, actual: nat) returns (r: seq<u8>, left: nat)
    ensures r == out + Repeat(c, if given > actual then given - actual else 0)
    ensures left == if given > actual then actual else given
  {
    r, left := out, given;
    while left > actual
      invariant left <= given && (given > actual ==> left >= actual) && (given <= actual ==> left == given)
      invariant r == out + Repeat(c, given - left)
    {
      r := r + [c];
      left := left - 1;
    }
  }

  /** `%d` of a 32-bit number. */
  function Format(num: int, flags: Flags, width: nat): seq<u8>
    requires -0x8000_0000 <= num < 0x8000_0000
  {
    Layout(num < 0, Digits(if num < 0 then -num else num, 10, false), flags, width)
  }

  /** The conversion with its buffer; negating the least number gives its own bit pattern. */
  method PrintDecimal(num: int, flags: Flags, width: nat) returns (out: seq<u8>, count: nat)
    requires -0x8000_0000 <= num < 0x8000_0000
    ensures out == Format(num, flags, width) && count == |out|
  {
    hide Digits, Layout, Signed32;
    var buf := new u8[BUFLEN](_ => 0);
    var negated := if num < 0 then Signed32(-num) else num;
    Magnitude(num);
    var where := WriteDigits(buf, negated % 0x1_0000_0000, 10, false);
    out, count := Emit(buf[where..15], num < 0, flags, width);
  }

  /** As an unsigned number the negated pattern is the magnitude, for the least number too. */
  lemma Magnitude(num: int)
    requires -0x8000_0000 <= num < 0x8000_0000
    ensures (if num < 0 then Signed32(-num) else num) % 0x1_0000_0000 == if num < 0 then -num else num
  {
  }

  // ---------------------------------------------------------------- reading back

  predicate IsDigit(c: u8) { ZERO <= c <= ZERO + 9 }

  /** The value of the digits from place i on, added to what was read before. */
  function ValueFrom(s: seq<u8>, i: nat, acc: nat): nat
    requires i <= |s|
    decreases |s| - i
  {
    if i < |s| && IsDigit(s[i]) then ValueFrom(s, i + 1, acc * 10 + (s[i] - ZERO)) else acc
  }

  function SignLength(s: seq<u8>): (n: nat)
    ensures n <= |s|
  {
    if s != [] && (s[0] == PLUS || s[0] == MINUS) then 1 else 0
  }

  function WithSign(neg: bool, n: int): int { if neg then -n else n }

  /** The number at the start of a string, cut to 32 bits. */
  function Parsed(s: seq<u8>): int {
    Signed32(WithSign(s != [] && s[0] == MINUS, ValueFrom(s, SignLength(s), 0)))
  }

  /** How often the counter wraps around on the way to v. */
  lemma Turns(v: int) returns (k: int)
    ensures v == Signed32(v) + k * 0x1_0000_0000
  {
    var w := v % 0x1_0000_0000;
    k := v / 0x1_0000_0000 + if w < 0x8000_0000 then 0 else 1;
  }

  lemma {:induction false} Turned(v: int, k: int)
    ensures Signed32(v + k * 0x1_0000_0000) == Signed32(v)
    decreases if k < 0 then -k else k
  {
    hide Signed32;
    if k > 0 {
      Turned(v, k - 1);
      OneTurn(v + (k - 1) * 0x1_0000_0000);
    } else if k < 0 {
      Turned(v, k + 1);
      OneTurn(v + k * 0x1_0000_0000);
    }
  }

  lemma OneTurn(v: int)
    ensures Signed32(v + 0x1_0000_0000) == Signed32(v)
  {
  }

  lemma SignedShift(n: int, v: int, d: int)
    requires n == Signed32(v)
    ensures Signed32(n * 10 + d) == Signed32(v * 10 + d)
  {
    hide Signed32;
    var k := Turns(v);
    Turned(n * 10 + d, 10 * k);
  }

  lemma SignedNegate(n: int, v: int)
    requires n == Signed32(v)
    ensures Signed32(-n) == Signed32(-v) && Signed32(n) == Signed32(v)
  {
    hide Signed32;
    var k := Turns(v);
    Turned(-v, k);
    Turned(n, k);
  }

  /** The parser, in two's complement throughout. */
  method Atoi(s: seq<u8>) returns (r: int)
    ensures r == Parsed(s)
  {
    hide Signed32;
    var n, factor, i := 0, 1, 0;
    ghost var v := 0;
    SignedFits(0);
    if s != [] && s[0] == PLUS {
      i := 1;
    } else if s != [] && s[0] == MINUS {
      i := 1;
      factor := -1;
    }
    while i < |s| && IsDigit(s[i])
      invariant i <= |s| && v >= 0 && n == Signed32(v)
      invariant factor == if s != [] && s[0] == MINUS then -1 else 1
      invariant ValueFrom(s, SignLength(s), 0) == ValueFrom(s, i, v)
    {
      SignedShift(n, v, s[i] - ZERO);
      n, v := Signed32(n * 10 + (s[i] - ZERO)), v * 10 + (s[i] - ZERO);
      i := i + 1;
    }
    SignedNegate(n, v);
    assert n * factor == WithSign(factor < 0, n);
    r := Signed32(n * factor);
  }

  /** The value of a string of digits, added to what was read before. */
  function Value(digits: seq<u8>, acc: nat): nat
    requires forall k :: 0 <= k < |digits| ==> IsDigit(digits[k])
  {
    if digits == [] then acc else assert IsDigit(digits[0]); Value(digits[1..], acc * 10 + (digits[0] - ZERO))
  }

  lemma {:induction false} ValueJoins(a: seq<u8>, b: seq<u8>, acc: nat)
    requires forall k :: 0 <= k < |a| ==> IsDigit(a[k])
    requires forall k :: 0 <= k < |b| ==> IsDigit(b[k])
    ensures Value(a + b, acc) == Value(b, Value(a, acc))
  {
    if a == [] {
      assert a + b == b;
    } else {
      assert (a + b)[1..] == a[1..] + b;
      ValueJoins(a[1..], b, acc * 10 + (a[0] - ZERO));
    }
  }

  lemma {:induction false} DigitsAreDigits(n: nat)
    ensures forall k :: 0 <= k < |Digits(n, 10, false)| ==> IsDigit(Digits(n, 10, false)[k])
  {
    if n >= 10 { DigitsAreDigits(n / 10); }
  }

  /** The digits of a number are worth that number. */
  lemma {:induction false} ValueOfDigits(n: nat)
    ensures forall k :: 0 <= k < |Digits(n, 10, false)| ==> IsDigit(Digits(n, 10, false)[k])
    ensures Value(Digits(n, 10, false), 0) == n
  {
    DigitsAreDigits(n);
    if n >= 10 {
      ValueOfDigits(n / 10);
      ValueJoins(Digits(n / 10, 10, false), [DigitChar(n % 10, false)], 0);
      assert Value([DigitChar(n % 10, false)], n / 10) == n / 10 * 10 + n % 10;
    }
  }

  lemma {:induction false} ValueOfZeros(n: nat)
    ensures Value(Repeat(ZERO, n), 0) == 0
  {
    if n > 0 {
      assert Repeat(ZERO, n)[1..] == Repeat(ZERO, n - 1);
      ValueOfZeros(n - 1);
    }
  }

  /** The parser reads a stretch of digits up to what follows it. */
  lemma {:induction false} ReadsStretch(s: seq<u8>, i: nat, j: nat, acc: nat)
    requires i <= j <= |s| && (forall k :: i <= k < j ==> IsDigit(s[k])) && (j < |s| ==> !IsDigit(s[j]))
    ensures ValueFrom(s, i, acc) == Value(s[i..j], acc)
    decreases j - i
  {
    if i < j {
      ReadsStretch(s, i + 1, j, acc * 10 + (s[i] - ZERO));
      assert s[i..j][1..] == s[i + 1..j];
    }
  }

  /** A sign, zeros, the digits of n, and spaces. */
  function Spread(neg: bool, zeros: nat, n: nat, spaces: nat): seq<u8> {
    (if neg then [MINUS] else []) + Repeat(ZERO, zeros) + Digits(n, 10, false) + Repeat(SPACE, spaces)
  }

  lemma ReadsMiddle(before: seq<u8>, digits: seq<u8>, after: seq<u8>)
    requires forall k :: 0 <= k < |digits| ==> IsDigit(digits[k])
    requires after == [] || !IsDigit(after[0])
    ensures ValueFrom(before + digits + after, |before|, 0) == Value(digits, 0)
  {
    var s, i, j := before + digits + after, |before|, |before| + |digits|;
    assert s[i..j] == digits;
    assert forall k :: i <= k < j ==> s[k] == digits[k - i];
    ReadsStretch(s, i, j, 0);
  }

  lemma ZerosAndDigits(zeros: nat, n: nat) returns (all: seq<u8>)
    ensures all == Repeat(ZERO, zeros) + Digits(n, 10, false) && all != []
    ensures forall k :: 0 <= k < |all| ==> IsDigit(all[k])
    ensures Value(all, 0) == n
  {
    all := Repeat(ZERO, zeros) + Digits(n, 10, false);
    ValueOfDigits(n);
    ValueOfZeros(zeros);
    ValueJoins(Repeat(ZERO, zeros), Digits(n, 10, false), 0);
  }

  lemma ReadsBack(neg: bool, zeros: nat, n: nat, spaces: nat)
    ensures Parsed(Spread(neg, zeros, n, spaces)) == Signed32(WithSign(neg, n))
  {
    hide Digits, Value, ValueFrom;
    var all := ZerosAndDigits(zeros, n);
    var sign := if neg then [MINUS] else [];
    ReadsMiddle(sign, all, Repeat(SPACE, spaces));
    assert Spread(neg, zeros, n, spaces) == sign + all + Repeat(SPACE, spaces);
    assert IsDigit((sign + all + Repeat(SPACE, spaces))[|sign|]);
  }

  lemma ReadsNothing(s: seq<u8>)
    requires s != [] && s[0] == SPACE
    ensures Parsed(s) == 0
  {
  }

  /** Reading back what was printed gives the number exactly when no spaces come before it, or the
      number is 0. */
  lemma RoundTripExactly(num: int, flags: Flags, width: nat)
    requires -0x8000_0000 <= num < 0x8000_0000
    ensures Parsed(Format(num, flags, width)) == num <==>
            flags.left || flags.zeros || width <= |Format(num, flags, 0)| || num == 0
  {
    hide Digits, Layout, Spread, Parsed;
    var neg, n := num < 0, if num < 0 then -num else num;
    var digits := Digits(n, 10, false);
    LayoutLength(neg, digits, flags, 0);
    if !flags.left && !flags.zeros && Padding(neg, digits, width) > 0 {
      PaddedLayout(neg, digits, flags, width);
      ReadsNothing(Format(num, flags, width));
    } else {
      SpreadFormat(neg, n, flags, width);
      ReadsBack(neg, if flags.left then 0 else Padding(neg, digits, width), n,
                if flags.left then Padding(neg, digits, width) else 0);
      SignedFits(num);
    }
  }

  lemma PaddedLayout(neg: bool, digits: seq<u8>, flags: Flags, width: nat)
    requires !flags.left && !flags.zeros && Padding(neg, digits, width) > 0
    ensures var s := Layout(neg, digits, flags, width); s != [] && s[0] == SPACE
  {
  }

  lemma SignedFits(num: int)
    requires -0x8000_0000 <= num < 0x8000_0000
    ensures Signed32(num) == num
  {
  }

  lemma SpreadFormat(neg: bool, n: nat, flags: Flags, width: nat)
    requires flags.left || flags.zeros || Padding(neg, Digits(n, 10, false), width) == 0
    ensures var digits := Digits(n, 10, false);
            var pad := Padding(neg, digits, width);
            Layout(neg, digits, flags, width) == Spread(neg, if flags.left then 0 else pad, n, if flags.left then pad else 0)
  {
    hide Digits;
  }

  // ---------------------------------------------------------------- which characters

  /** The characters of digits: 0 to 9, and A to F or a to f as asked for. */
  predicate InCase(c: u8, capitals: bool) {
    0x30 <= c <= 0x39 || (if capitals then 0x41 <= c <= 0x46 else 0x61 <= c <= 0x66)
  }

  lemma {:induction false} DigitsInCase(n: nat, radix: nat, capitals: bool)
    requires 2 <= radix <= 16
    ensures forall i :: 0 <= i < |Digits(n, radix, capitals)| ==> InCase(Digits(n, radix, capitals)[i], capitals)
  {
    hide DigitChar, InCase;
    if n < radix {
      CharInCase(n, capitals);
    } else {
      DigitsInCase(n / radix, radix, capitals);
      CharInCase(n % radix, capitals);
    }
  }

  lemma CharInCase(d: nat, capitals: bool)
    requires d < 16
    ensures InCase(DigitChar(d, capitals), capitals)
  {
  }

  /** The printed number in characters: the digits, a minus sign in front of negative ones, and as many
      padding characters as the width asks for: spaces behind on the left, zeros between sign and digits
      or spaces in front otherwise. */
  lemma LayoutInCharacters(neg: bool, digits: seq<u8>, flags: Flags, width: nat) returns (pad: nat)
    ensures pad == if width > |digits| + (if neg then 1 else 0) then width - |digits| - (if neg then 1 else 0) else 0
    ensures var sign: seq<u8>, spaces, zeros := if neg then [0x2d] else [], seq<u8>(pad, _ => 0x20), seq<u8>(pad, _ => 0x30);
            Layout(neg, digits, flags, width) ==
              if flags.left then sign + digits + spaces
              else if flags.zeros then sign + zeros + digits
              else spaces + sign + digits
  {
    pad := Padding(neg, digits, width);
  }

  /** The parser takes a plus or a minus sign, or none, and then decimal digits as far as they go. */
  lemma SignedRead(sign: seq<u8>, digits: seq<u8>, after: seq<u8>)
    requires sign == [] || sign == [0x2b] || sign == [0x2d]
    requires digits != [] && forall k :: 0 <= k < |digits| ==> 0x30 <= digits[k] <= 0x39
    requires after == [] || !(0x30 <= after[0] <= 0x39)
    ensures Parsed(sign + digits + after) ==
            Signed32(if sign == [0x2d] then -DecimalValue(digits) else DecimalValue(digits))
  {
    hide *;
    AreDigits(digits, after);
    ReadsMiddle(sign, digits, after);
    SignInFront(sign, digits, after);
    ValueIsDecimal(digits);
    ParsedIs(sign + digits + after, |sign|, sign == [0x2d], DecimalValue(digits));
  }

  lemma AreDigits(digits: seq<u8>, after: seq<u8>)
    requires forall k :: 0 <= k < |digits| ==> 0x30 <= digits[k] <= 0x39
    requires after == [] || !(0x30 <= after[0] <= 0x39)
    ensures forall k :: 0 <= k < |digits| ==> IsDigit(digits[k])
    ensures after == [] || !IsDigit(after[0])
  {
  }

  lemma ParsedIs(s: seq<u8>, start: nat, neg: bool, v: int)
    requires s != [] && SignLength(s) == start && (s[0] == MINUS <==> neg)
    requires ValueFrom(s, start, 0) == v
    ensures Parsed(s) == Signed32(if neg then -v else v)
  {
    hide ValueFrom, SignLength, Signed32;
  }

  lemma SignInFront(sign: seq<u8>, digits: seq<u8>, after: seq<u8>)
    requires sign == [] || sign == [0x2b] || sign == [0x2d]
    requires digits != [] && 0x30 <= digits[0] <= 0x39
    ensures var s := sign + digits + after;
            s != [] && SignLength(s) == |sign| && (s[0] == MINUS <==> sign == [0x2d])
  {
    var s := sign + digits + after;
    if sign == [] { assert s[0] == digits[0]; } else { assert s[0] == sign[0]; }
  }

  /** The worth of decimal digits, from the last one. */
  function DecimalValue(digits: seq<u8>): int {
    if digits == [] then 0 else 10 * DecimalValue(digits[..|digits| - 1]) + digits[|digits| - 1] - 0x30
  }

  lemma {:induction false} ValueIsDecimal(digits: seq<u8>)
    requires forall k :: 0 <= k < |digits| ==> IsDigit(digits[k])
    ensures Value(digits, 0) == DecimalValue(digits)
    decreases |digits|
  {
    if digits != [] {
      var m := |digits| - 1;
      ValueIsDecimal(digits[..m]);
      ValueJoins(digits[..m], digits[m..], 0);
      assert digits == digits[..m] + digits[m..] && digits[m..][1..] == [];
    }
  }

  lemma {:induction false} NoLeadingZero(n: nat)
    ensures Digits(n, 10, false)[0] == 0x30 <==> n == 0
  {
    if n >= 10 {
      NoLeadingZero(n / 10);
    }
  }

  /** Unpadded, a number is printed as its decimal digits, the first not a zero unless it is the only one,
      behind a minus sign exactly if it is negative. */
  lemma PlainFormat(num: int, flags: Flags) returns (digits: seq<u8>)
    requires -0x8000_0000 <= num < 0x8000_0000
    ensures Format(num, flags, 0) == (if num < 0 then [0x2d] else []) + digits
    ensures digits != [] && forall k :: 0 <= k < |digits| ==> 0x30 <= digits[k] <= 0x39
    ensures DecimalValue(digits) == (if num < 0 then -num else num)
    ensures digits[0] == 0x30 ==> num == 0 && |digits| == 1
  {
    hide DecimalValue, Digits, Layout, Repeat;
    var n := if num < 0 then -num else num;
    digits := Digits(n, 10, false);
    var pad := LayoutInCharacters(num < 0, digits, flags, 0);
    ValueOfDigits(n);
    ValueIsDecimal(digits);
    NoLeadingZero(n);
    OneZero();
    var sign: seq<u8> := if num < 0 then [0x2d] else [];
    assert sign + digits + [] == sign + digits && sign + [] + digits == sign + digits && [] + sign + digits == sign + digits;
    assert seq<u8>(0, _ => 0x20) == [] && seq<u8>(0, _ => 0x30) == [];
  }

  lemma OneZero()
    ensures |Digits(0, 10, false)| == 1
  {
  }
}
