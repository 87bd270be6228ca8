/** Source-over compositing of 8-bit RGBA pixels in integer arithmetic. */
module Blend {
  import opened Prim
  import opened Arith

  datatype Rgba8 = Rgba(r: u8, g: u8, b: u8, a: u8)

  // ---------------------------------------------------------------- the code

  function OutAlpha(sa: u8, da: u8): int { sa + (da * (255 - sa) + 127) / 255 }

  /** The destination's share of a channel. */
  function Kept(d: u8, sa: u8, da: u8): int { d * da * (255 - sa) / 255 }

  /** One channel before it is cut down to a byte. */
  function Channel(s: u8, d: u8, sa: u8, da: u8): int
    requires OutAlpha(sa, da) != 0
  {
    Rounded(s * sa + Kept(d, sa, da), OutAlpha(sa, da))
  }

  function Rounded(n: int, k: int): int
    requires k != 0
  {
    (n + k / 2) / k
  }

  function SrcOver(dst: Rgba8, src: Rgba8): Rgba8 {
    var a := OutAlpha(src.a, dst.a);
    if a == 0 then Rgba(0, 0, 0, 0)
    else
      Rgba(Channel(src.r, dst.r, src.a, dst.a) % 256, Channel(src.g, dst.g, src.a, dst.a) % 256,
           Channel(src.b, dst.b, src.a, dst.a) % 256, a % 256)
  }

  function Scaled(c: u8, t: u8): u8 { Over255(c * t) % 256 }

  function Over255(p: int): int { (p + 127) / 255 }

  function Modulate(src: Rgba8, tint: Rgba8): Rgba8 {
    Rgba(Scaled(src.r, tint.r), Scaled(src.g, tint.g), Scaled(src.b, tint.b), Scaled(src.a, tint.a))
  }

  // ---------------------------------------------------------------- alpha

  /** Tinting takes the nearest byte to the product of the two as fractions of 255, so a channel
      never gains, black stays black and full white changes nothing. */
  lemma TintIsNearest(c: u8, t: u8)
    ensures -255 <= 2 * (255 * Scaled(c, t) - c * t) <= 255
    ensures Scaled(c, t) <= c && Scaled(c, t) <= t
    ensures t == 255 ==> Scaled(c, t) == c
  {
    hide Over255;
    var p := c * t;
    ProductBounds(c, t);
    Nearest(p, c);
    Nearest(p, t);
  }

  lemma Nearest(p: nat, bound: u8)
    requires p <= 255 * bound
    ensures -255 <= 2 * (255 * Over255(p) - p) <= 255 && 0 <= Over255(p) <= bound
    ensures p == 255 * bound ==> Over255(p) == bound
  {
  }

  /** Compositing never makes a pixel less opaque. */
  lemma NeverFades(dst: Rgba8, src: Rgba8)
    ensures dst.a <= SrcOver(dst, src).a
  {
    hide Channel;
    AlphaGrows(src.a, dst.a);
  }

  lemma ProductBounds(a: u8, b: u8)
    ensures 0 <= a * b <= 255 * a && a * b <= 255 * b
  {
    ProductOrder(a, 0, b);
    ProductOrder(255, b, a);
    ProductOrder(255, a, b);
  }

  /** The composited alpha is a byte, at least as large as both alphas, and opaque stays opaque. */
  lemma AlphaGrows(sa: u8, da: u8)
    ensures da <= OutAlpha(sa, da) <= 255 && sa <= OutAlpha(sa, da)
    ensures da == 255 || sa == 255 ==> OutAlpha(sa, da) == 255
    ensures OutAlpha(sa, da) == 0 <==> sa == 0 && da == 0
  {
    ProductBounds(sa, da);
    assert da * (255 - sa) == 255 * da - sa * da;
    var q := da * (255 - sa);
    assert 255 * (da - sa) <= q <= 255 * (255 - sa) by { ProductBounds(da, 255 - sa); }
  }

  // ---------------------------------------------------------------- channels

  /** What the destination's weight leaves over 255ths. */
  function Excess(sa: u8, da: u8): nat { da * (255 - sa) % 255 }

  /** The rounding of the alpha does not show in the channels: rounded down, the part dropped
      stays below half of the new alpha; rounded up, the part added does. */
  predicate Faithful(sa: u8, da: u8) {
    var r, half := Excess(sa, da), OutAlpha(sa, da) / 2;
    if r < 128 then r + half < OutAlpha(sa, da) else 255 - r <= half
  }

  predicate Fits(sa: u8, da: u8) {
    Excess(sa, da) >= 128 || Excess(sa, da) + OutAlpha(sa, da) / 2 < OutAlpha(sa, da)
  }

  lemma AlphaParts(sa: u8, da: u8)
    ensures var q, r := da * (255 - sa) / 255, Excess(sa, da);
            q >= 0 && da * (255 - sa) == 255 * q + r && r < 255 && OutAlpha(sa, da) == sa + q + if r >= 128 then 1 else 0
  {
    ProductBounds(da, 255 - sa);
  }

  /** A colour composited over itself: off by a quotient that depends on the excess alone. */
  lemma SameColour(c: u8, sa: u8, da: u8)
    requires OutAlpha(sa, da) > 0
    ensures Channel(c, c, sa, da) == c + Offset(c, c * Excess(sa, da) / 255, Excess(sa, da), OutAlpha(sa, da))
  {
    var q, r, oa := da * (255 - sa) / 255, Excess(sa, da), OutAlpha(sa, da);
    AlphaParts(sa, da);
    Numerator(c, sa, da, q, r);
    SelfQuotient(c, sa + q, c * r / 255, oa, r, c * sa + Kept(c, sa, da));
  }

  /** By how much a colour misses itself: x is its share of the excess r. */
  function Offset(c: int, x: int, r: int, oa: int): int
    requires oa != 0
  {
    if r < 128 then (x + oa / 2) / oa else (oa / 2 - (c - x)) / oa
  }

  lemma SelfQuotient(c: int, a: int, x: int, oa: int, r: int, n: int)
    requires oa > 0 && oa == (if r >= 128 then a + 1 else a) && n == c * a + x
    ensures Rounded(n, oa) == c + Offset(c, x, r, oa)
  {
    var half := oa / 2;
    if r < 128 { Shifted(c, a, x + half, oa, 0); } else { Shifted(c, a, x + half, oa, 1); }
  }

  lemma Shifted(c: int, a: int, e: int, oa: int, up: nat)
    requires oa > 0 && oa == a + up && up <= 1
    ensures (c * a + e) / oa == c + (e - c * up) / oa
  {
    assert c * oa == c * a + c * up;
    ShiftQuotient(c, oa, e - c * up);
  }

  lemma Numerator(c: u8, sa: u8, da: u8, q: nat, r: nat)
    requires da * (255 - sa) == 255 * q + r
    ensures c * sa + Kept(c, sa, da) == c * (sa + q) + c * r / 255
  {
    ScaledQuotient(c, da * (255 - sa), q, r);
    assert c * da * (255 - sa) == c * (da * (255 - sa));
    assert c * (sa + q) == c * sa + c * q;
  }

  lemma ScaledQuotient(c: nat, p: nat, q: nat, r: nat)
    requires p == 255 * q + r
    ensures c * p / 255 == c * q + c * r / 255
  {
    assert c * p == 255 * (c * q) + c * r;
  }

  lemma ShiftQuotient(c: int, d: int, e: int)
    requires d > 0
    ensures (c * d + e) / d == c + e / d
  {
    var x := (c * d + e) / d - (c + e / d);
    assert c * d + e == d * ((c * d + e) / d) + (c * d + e) % d;
    assert e == d * (e / d) + e % d;
    assert x * d == e % d - (c * d + e) % d;
    assert x >= 1 ==> x * d >= d;
    assert x <= -1 ==> x * d <= -d;
  }

  lemma QuotientMonotone(a: int, b: int, k: int)
    requires k > 0 && a <= b
    ensures a / k <= b / k
  {
    var x := a / k - b / k;
    assert a == k * (a / k) + a % k && b == k * (b / k) + b % k;
    assert x * k <= b % k - a % k;
    assert x >= 1 ==> x * k >= k;
  }

  lemma ChannelMonotone(s: u8, d: u8, s': u8, d': u8, sa: u8, da: u8)
    requires OutAlpha(sa, da) > 0 && s <= s' && d <= d'
    ensures Channel(s, d, sa, da) <= Channel(s', d', sa, da)
  {
    MulLe(s, s', sa);
    KeptMonotone(d, d', sa, da);
    RoundedMonotone(s * sa + Kept(d, sa, da), s' * sa + Kept(d', sa, da), OutAlpha(sa, da));
  }

  lemma KeptMonotone(d: u8, d': u8, sa: u8, da: u8)
    requires d <= d'
    ensures Kept(d, sa, da) <= Kept(d', sa, da)
  {
    MulLe(d, d', da);
    MulLe(d * da, d' * da, 255 - sa);
    QuotientMonotone(d * da * (255 - sa), d' * da * (255 - sa), 255);
  }

  lemma RoundedMonotone(n: int, m: int, k: int)
    requires k > 0 && n <= m
    ensures Rounded(n, k) <= Rounded(m, k)
  {
    QuotientMonotone(n + k / 2, m + k / 2, k);
  }

  lemma MulLe(a: int, b: int, k: nat)
    requires a <= b
    ensures a * k <= b * k
  {
    assert b * k - a * k == (b - a) * k;
  }

  lemma ScaledExcess(c: u8, r: nat)
    requires r < 255
    ensures 0 <= c * r / 255 <= r && 0 <= c - c * r / 255 <= 255 - r
  {
    MulLe(0, c, r);
    MulLe(c, 255, r);
    QuotientMonotone(c * r, 255 * r, 255);
    MulLe(r, 255, c);
    QuotientMonotone(c * r, 255 * c, 255);
    var k := c - (255 - r);
    MulLe(0, 255 - c, 255 - r);
    assert (255 - c) * (255 - r) == c * r - 255 * k;
    QuotientMonotone(255 * k, c * r, 255);
  }

  lemma SmallQuotient(e: int, k: int)
    requires k > 0
    ensures e / k == 0 <==> 0 <= e < k
    ensures e / k <= 0 <==> e < k
  {
    assert e == k * (e / k) + e % k;
    assert e / k >= 1 ==> k * (e / k) >= k;
    assert e / k <= -1 ==> k * (e / k) <= -k;
  }

  /** A colour composited over itself stays itself, for every colour, if the weights are
      faithful. */
  lemma FaithfulKeeps(c: u8, sa: u8, da: u8)
    requires OutAlpha(sa, da) > 0 && Faithful(sa, da)
    ensures Channel(c, c, sa, da) == c
  {
    SameColour(c, sa, da);
    ScaledExcess(c, Excess(sa, da));
    Settle(c, c * Excess(sa, da) / 255, Excess(sa, da), OutAlpha(sa, da));
  }

  lemma Settle(c: int, x: int, r: int, oa: int)
    requires oa > 0 && 0 <= x <= r && 0 <= c - x <= 255 - r
    requires if r < 128 then r + oa / 2 < oa else 255 - r <= oa / 2
    ensures Offset(c, x, r, oa) == 0
  {
    SmallQuotient(x + oa / 2, oa);
    SmallQuotient(oa / 2 - (c - x), oa);
  }

  lemma WhiteOverWhite(sa: u8, da: u8)
    requires OutAlpha(sa, da) > 0
    ensures Channel(255, 255, sa, da) == 255 <==> Faithful(sa, da)
    ensures Channel(255, 255, sa, da) <= 255 <==> Fits(sa, da)
  {
    var r, oa := Excess(sa, da), OutAlpha(sa, da);
    SameColour(255, sa, da);
    assert 255 * r / 255 == r;
    SmallQuotient(r + oa / 2, oa);
    SmallQuotient(oa / 2 - (255 - r), oa);
  }

  predicate Between(x: int, a: int, b: int) { (a <= x <= b) || (b <= x <= a) }

  predicate AlwaysBetween(sa: u8, da: u8)
    requires OutAlpha(sa, da) > 0
  {
    forall s: u8, d: u8 :: Between(Channel(s, d, sa, da), s, d)
  }

  predicate AlwaysFits(sa: u8, da: u8)
    requires OutAlpha(sa, da) > 0
  {
    forall s: u8, d: u8 :: Channel(s, d, sa, da) <= 255
  }

  /** Every channel lies between the two it is made of iff the weights are faithful. */
  lemma BetweenExactlyWhenFaithful(sa: u8, da: u8)
    requires OutAlpha(sa, da) > 0
    ensures AlwaysBetween(sa, da) <==> Faithful(sa, da)
  {
    WhiteOverWhite(sa, da);
    if AlwaysBetween(sa, da) {
      assert Between(Channel(255, 255, sa, da), 255, 255);
    }
    if Faithful(sa, da) {
      forall s: u8, d: u8
        ensures Between(Channel(s, d, sa, da), s, d)
      {
        var lo, hi := if s <= d then s else d, if s <= d then d else s;
        FaithfulKeeps(lo, sa, da);
        FaithfulKeeps(hi, sa, da);
        ChannelMonotone(lo, lo, s, d, sa, da);
        ChannelMonotone(s, d, hi, hi, sa, da);
      }
    }
  }

  /** Every channel fits a byte iff the weights fit. */
  lemma FitsExactly(sa: u8, da: u8)
    requires OutAlpha(sa, da) > 0
    ensures AlwaysFits(sa, da) <==> Fits(sa, da)
  {
    WhiteOverWhite(sa, da);
    if Fits(sa, da) {
      forall s: u8, d: u8
        ensures Channel(s, d, sa, da) <= 255
      {
        ChannelMonotone(s, d, 255, 255, sa, da);
      }
    }
  }

  /** Over an opaque pixel, and onto a fully transparent one, the weights are faithful. */
  lemma FaithfulCases(sa: u8, da: u8)
    requires da == 255 || (da == 0 && sa > 0)
    ensures OutAlpha(sa, da) > 0 && Faithful(sa, da)
  {
    AlphaGrows(sa, da);
    var k := 255 - sa;
    assert (255 * k) % 255 == 0;
    if da == 255 {
      assert Excess(sa, da) == 0 && OutAlpha(sa, da) == 255;
    } else {
      assert Excess(sa, da) == 0 && OutAlpha(sa, da) == sa;
    }
  }

  /** They are not always: almost transparent white over half transparent white computes 256,
      which the cut to a byte turns into black. */
  lemma WhiteTurnsBlack()
    ensures Channel(255, 255, 1, 128) == 256 && !Faithful(1, 128) && !Fits(1, 128)
    ensures SrcOver(Rgba(255, 255, 255, 128), Rgba(255, 255, 255, 1)) == Rgba(0, 0, 0, 128)
  {
    assert OutAlpha(1, 128) == 128;
  }

  /** On an opaque pixel a composited pixel is opaque and each channel a byte between the two. */
  lemma OverOpaque(dst: Rgba8, src: Rgba8)
    requires dst.a == 255
    ensures var o := SrcOver(dst, src);
            o.a == 255 && Between(o.r, src.r, dst.r) && Between(o.g, src.g, dst.g) && Between(o.b, src.b, dst.b)
  {
    hide Channel, OutAlpha, Faithful;
    FaithfulCases(src.a, 255);
    AlphaGrows(src.a, 255);
    BetweenExactlyWhenFaithful(src.a, 255);
    assert Between(Channel(src.r, dst.r, src.a, 255), src.r, dst.r);
    assert Between(Channel(src.g, dst.g, src.a, 255), src.g, dst.g);
    assert Between(Channel(src.b, dst.b, src.a, 255), src.b, dst.b);
  }

  // ---------------------------------------------------------------- which colour is which

  /** An opaque source replaces what is there. */
  lemma OpaqueSourceWins(dst: Rgba8, src: Rgba8)
    requires src.a == 255
    ensures SrcOver(dst, src) == src
  {
    hide Rounded;
    assert OutAlpha(255, dst.a) == 255;
    assert Kept(dst.r, 255, dst.a) == Kept(dst.g, 255, dst.a) == Kept(dst.b, 255, dst.a) == 0;
    WholeShare(src.r, 255);
    WholeShare(src.g, 255);
    WholeShare(src.b, 255);
  }

  /** A transparent source changes nothing where there is anything. */
  lemma TransparentSourceLoses(dst: Rgba8, src: Rgba8)
    requires src.a == 0 && dst.a > 0
    ensures SrcOver(dst, src) == dst
  {
    hide Rounded, Kept;
    assert OutAlpha(0, dst.a) == dst.a;
    KeptWhole(dst.r, dst.a);
    KeptWhole(dst.g, dst.a);
    KeptWhole(dst.b, dst.a);
    WholeShare(dst.r, dst.a);
    WholeShare(dst.g, dst.a);
    WholeShare(dst.b, dst.a);
  }

  /** Over a fully transparent pixel a source with some alpha is taken as it is, and one without leaves
      nothing. */
  lemma OverNothing(dst: Rgba8, src: Rgba8)
    requires dst.a == 0
    ensures SrcOver(dst, src) == if src.a > 0 then src else Rgba(0, 0, 0, 0)
  {
    if src.a > 0 { SomethingOverNothing(dst, src); }
  }

  lemma SomethingOverNothing(dst: Rgba8, src: Rgba8)
    requires src.a > 0 && dst.a == 0
    ensures SrcOver(dst, src) == src
  {
    hide Rounded;
    assert OutAlpha(src.a, 0) == src.a;
    assert Kept(dst.r, src.a, 0) == Kept(dst.g, src.a, 0) == Kept(dst.b, src.a, 0) == 0;
    WholeShare(src.r, src.a);
    WholeShare(src.g, src.a);
    WholeShare(src.b, src.a);
  }

  lemma KeptWhole(d: u8, da: u8)
    ensures Kept(d, 0, da) == d * da
  {
    assert d * da * 255 / 255 == d * da;
  }

  lemma WholeShare(c: u8, a: u8)
    requires a > 0
    ensures Rounded(c * a, a) == c
  {
    Quotient(c, a / 2, a);
  }

  /** q is the mean of s and d, with weights sa and da * (255 - sa) / 255 over the new alpha a, to within a
      rounding: half of a, and one for the weight cut down to a whole number. */
  predicate IsMean(q: int, s: u8, d: u8, sa: u8, da: u8, a: int) {
    -255 * a - 253 <= 2 * (255 * (a * q) - (255 * (s * sa) + d * da * (255 - sa))) <= 255 * a
  }

  lemma ChannelIsMean(s: u8, d: u8, sa: u8, da: u8)
    requires OutAlpha(sa, da) > 0
    ensures IsMean(Channel(s, d, sa, da), s, d, sa, da, OutAlpha(sa, da)) && Channel(s, d, sa, da) >= 0
  {
    var a, n, share := OutAlpha(sa, da), s * sa + Kept(d, sa, da), d * da * (255 - sa);
    ProductOrder(s, 0, sa);
    ProductOrder(d, 0, da);
    ProductOrder(d * da, 0, 255 - sa);
    assert share - 254 <= 255 * Kept(d, sa, da) <= share;
    RoundedNear(n, a);
    var q := Rounded(n, a);
    hide OutAlpha, Kept, Channel, Rounded;
  }

  lemma RoundedNear(n: int, a: int)
    requires a > 0 && n >= 0
    ensures -a + 1 <= 2 * (a * Rounded(n, a) - n) <= a && Rounded(n, a) >= 0
  {
    var x := n + a / 2;
    Divide(x, a);
  }

  lemma AlphaIsSum(sa: u8, da: u8)
    ensures -127 <= 255 * OutAlpha(sa, da) - (255 * sa + da * (255 - sa)) <= 127
  {
    var x := da * (255 - sa) + 127;
    ProductOrder(da, 0, 255 - sa);
    Divide(x, 255);
  }

  /** Compositing, channel by channel: before it is cut down to a byte, each is the mean of the source's
      and the destination's with the weights of their alphas; the new alpha is the sum of the weights,
      rounded to the nearest. */
  lemma CompositeIsMean(dst: Rgba8, src: Rgba8) returns (r: nat, g: nat, b: nat)
    requires src.a > 0 || dst.a > 0
    ensures var o := SrcOver(dst, src);
            && -127 <= 255 * o.a - (255 * src.a + dst.a * (255 - src.a)) <= 127
            && o.r == r % 256 && o.g == g % 256 && o.b == b % 256
            && IsMean(r, src.r, dst.r, src.a, dst.a, o.a) && IsMean(g, src.g, dst.g, src.a, dst.a, o.a)
            && IsMean(b, src.b, dst.b, src.a, dst.a, o.a)
            && (Fits(src.a, dst.a) ==> r <= 255 && g <= 255 && b <= 255)
  {
    hide Channel, IsMean, Fits, OutAlpha;
    var sa, da := src.a, dst.a;
    AlphaGrows(sa, da);
    AlphaIsSum(sa, da);
    ChannelIsMean(src.r, dst.r, sa, da);
    ChannelIsMean(src.g, dst.g, sa, da);
    ChannelIsMean(src.b, dst.b, sa, da);
    FitsExactly(sa, da);
    r, g, b := Channel(src.r, dst.r, sa, da), Channel(src.g, dst.g, sa, da), Channel(src.b, dst.b, sa, da);
  }

  /** m is the nearest byte to c * t / 255. */
  predicate NearestProduct(m: u8, c: u8, t: u8) { -255 <= 2 * (255 * m - c * t) <= 255 }

  /** Tinting multiplies every channel with its own. */
  lemma TintEachChannel(src: Rgba8, tint: Rgba8)
    ensures var m := Modulate(src, tint);
            && NearestProduct(m.r, src.r, tint.r) && NearestProduct(m.g, src.g, tint.g)
            && NearestProduct(m.b, src.b, tint.b) && NearestProduct(m.a, src.a, tint.a)
  {
    hide Scaled;
    TintIsNearest(src.r, tint.r);
    TintIsNearest(src.g, tint.g);
    TintIsNearest(src.b, tint.b);
    TintIsNearest(src.a, tint.a);
  }
}
