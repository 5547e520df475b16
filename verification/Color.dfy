/** Conversion between RGB and HSL and blending, over exact reals. */
module Color {
  datatype Rgba = Rgba(r: real, g: real, b: real, a: real)

  datatype Hsla = Hsla(h: real, s: real, l: real, a: real)

  predicate Unit(x: real) {
    0.0 <= x <= 1.0
  }

  predicate InRange(c: Rgba) {
    Unit(c.r) && Unit(c.g) && Unit(c.b) && Unit(c.a)
  }

  predicate HslInRange(c: Hsla) {
    Unit(c.h) && Unit(c.s) && Unit(c.l) && Unit(c.a)
  }

  function Max(x: real, y: real): real {
    if x < y then y else x
  }

  function Min(x: real, y: real): real {
    if x < y then x else y
  }

  function Abs(x: real): real {
    if x < 0.0 then -x else x
  }

  function Clamp(x: real): real {
    if x < 0.0 then 0.0 else if x > 1.0 then 1.0 else x
  }

  /** The remainder with the sign of the dividend. */
  function Rem(x: real, m: real): real
    requires m > 0.0
  {
    if x >= 0.0 then x - m * (x / m).Floor as real else x + m * (-x / m).Floor as real
  }

  /** The non-negative remainder. */
  function RemEuclid(x: real, m: real): real
    requires m > 0.0
  {
    x - m * (x / m).Floor as real
  }

  function ToHsla(color: Rgba): Hsla {
    var r, g, b := color.r, color.g, color.b;
    var max := Max(r, Max(g, b));
    var min := Min(r, Min(g, b));
    var delta := max - min;
    var l := (max + min) / 2.0;
    var s :=
      if l == 0.0 || l == 1.0 then 0.0
      else if l < 0.5 then delta / (2.0 * l)
      else delta / (2.0 - 2.0 * l);
    Hsla(Hue(color, max, delta), s, l, color.a)
  }

  function Hue(color: Rgba, max: real, delta: real): real {
    var r, g, b := color.r, color.g, color.b;
    if delta == 0.0 then 0.0
    else if max == r then RemEuclid((g - b) / delta, 6.0) / 6.0
    else if max == g then ((b - r) / delta + 2.0) / 6.0
    else ((r - g) / delta + 4.0) / 6.0
  }

  /** The difference between the largest and the smallest channel. */
  function Chroma(s: real, l: real): real {
    (1.0 - Abs(2.0 * l - 1.0)) * s
  }

  /** The factor of the middle channel at six times the hue. */
  function Tent(hue6: real): real {
    1.0 - Abs(Rem(hue6, 2.0) - 1.0)
  }

  /** The three channels before they are clamped. */
  function Channels(color: Hsla): (real, real, real) {
    var c := Chroma(color.s, color.l);
    FromChroma(color.h * 6.0, c, color.l - c / 2.0)
  }

  function FromChroma(hue6: real, c: real, m: real): (real, real, real) {
    Sector(hue6.Floor, c + m, Middle(c, Tent(hue6)) + m, m)
  }

  function Middle(c: real, f: real): (x: real)
    ensures c >= 0.0 && Unit(f) ==> 0.0 <= x <= c
  {
    var x := c * f;
    assert c >= 0.0 && Unit(f) ==> c * (1.0 - f) >= 0.0;
    assert c * (1.0 - f) == c - x;
    x
  }

  function Sector(sector: int, cm: real, xm: real, m: real): (real, real, real) {
    if sector == 0 || sector == 6 then (cm, xm, m)
    else if sector == 1 then (xm, cm, m)
    else if sector == 2 then (m, cm, xm)
    else if sector == 3 then (m, xm, cm)
    else if sector == 4 then (xm, m, cm)
    else (cm, m, xm)
  }

  function ToRgba(color: Hsla): Rgba {
    var (r, g, b) := Channels(color);
    Rgba(Clamp(r), Clamp(g), Clamp(b), color.a)
  }

  function Blend(self: Rgba, other: Rgba): Rgba {
    if other.a >= 1.0 then
      other
    else if other.a <= 0.0 then
      self
    else
      Rgba(Mix(self.r, other.r, other.a), Mix(self.g, other.g, other.a), Mix(self.b, other.b, other.a), self.a)
  }

  function Mix(x: real, y: real, a: real): real {
    x * (1.0 - a) + y * a
  }

  // ---------- Chroma and lightness ----------

  /** The saturation is what the chroma was divided by, so multiplying gives the chroma back. */
  lemma ChromaBack(max: real, min: real)
    requires 0.0 <= min <= max <= 1.0
    ensures var l := (max + min) / 2.0;
            var delta := max - min;
            var s := if l == 0.0 || l == 1.0 then 0.0 else if l < 0.5 then delta / (2.0 * l) else delta / (2.0 - 2.0 * l);
            && Chroma(s, l) == delta
            && l - delta / 2.0 == min
            && Unit(s) && Unit(l)
  {
    var l := (max + min) / 2.0;
    var delta := max - min;
    if l == 0.0 || l == 1.0 {
    } else if l < 0.5 {
      DivideBack(delta, 2.0 * l);
    } else {
      DivideBack(delta, 2.0 - 2.0 * l);
    }
  }

  lemma DivideBack(x: real, y: real)
    requires 0.0 <= x <= y && y > 0.0
    ensures y * (x / y) == x
    ensures 0.0 <= x / y <= 1.0
  {
    var q := x / y;
    assert y * q == x;
    if q > 1.0 {
      ScaleUp(y, q);
    } else if q < 0.0 {
      ScaleUp(y, -q + 1.0);
    }
  }

  lemma ScaleUp(y: real, q: real)
    requires y > 0.0 && q > 1.0
    ensures y * q > y
  {
    assert y * (q - 1.0) > 0.0;
  }

  // ---------- Hue ----------

  /** Between two corners of the hue circle the factor is the distance from the nearer even corner. */
  lemma TentNear(corner: int, t: real)
    requires corner in {0, 1, 2, 3} && -1.0 <= t <= 1.0 && 2.0 * corner as real + t >= 0.0
    ensures Tent(2.0 * corner as real + t) == Abs(t)
  {
    var hue6 := 2.0 * corner as real + t;
    assert hue6 / 2.0 == corner as real + t / 2.0;
    if t >= 0.0 {
      assert (hue6 / 2.0).Floor == corner;
    } else {
      assert (hue6 / 2.0).Floor == corner - 1;
    }
  }

  /** What matters of `t`, the difference `d` divided by the chroma. */
  ghost predicate Ratio(t: real, d: real, delta: real) {
    && -1.0 <= t <= 1.0
    && Middle(delta, Abs(t)) == Abs(d)
    && (d > 0.0 ==> t > 0.0) && (d == 0.0 ==> t == 0.0) && (d < 0.0 ==> t < 0.0)
    && (Abs(t) == 1.0 <==> Abs(d) == delta)
  }

  lemma SameFactor(x: real, y: real, z: real)
    requires x > 0.0 && x * y == x * z
    ensures y == z
  {
    assert x * (y - z) == 0.0;
  }

  lemma Opposites(x: real, y: real, z: real, p: real)
    requires x > 0.0 && x * y == p && x * z == -p
    ensures y == -z
  {
    assert x * (y + z) == 0.0;
  }

  lemma RatioOfPositive(d: real, delta: real) returns (t: real)
    requires 0.0 <= d <= delta && delta > 0.0
    ensures t == d / delta && Ratio(t, d, delta) && t >= 0.0
  {
    t := d / delta;
    DivideBack(d, delta);
    assert Middle(delta, t) == d;
    if t == 1.0 {
      assert d == delta;
    }
    if d == delta {
      SameFactor(delta, t, 1.0);
    }
    if d == 0.0 {
      SameFactor(delta, t, 0.0);
    }
  }

  /** Dividing a difference of channels by the chroma. */
  lemma RatioBack(d: real, delta: real) returns (t: real)
    requires delta > 0.0 && -delta <= d <= delta
    ensures t == d / delta && Ratio(t, d, delta)
  {
    if d >= 0.0 {
      t := RatioOfPositive(d, delta);
    } else {
      var u := RatioOfPositive(-d, delta);
      t := d / delta;
      Opposites(delta, t, u, d);
    }
  }

  /** The hue of a colour that is not grey, times six: an even corner and a distance from it. */
  lemma HueOf(color: Rgba, delta: real) returns (corner: int, d: real, t: real)
    requires InRange(color) && !(color.r == color.g == color.b)
    requires delta == Max(color.r, Max(color.g, color.b)) - Min(color.r, Min(color.g, color.b))
    ensures delta > 0.0 && Ratio(t, d, delta)
    ensures NearCorner(color, Max(color.r, Max(color.g, color.b)), corner, d)
    ensures ToHsla(color).h * 6.0 == 2.0 * corner as real + t && 2.0 * corner as real + t >= 0.0
    ensures Unit(ToHsla(color).h)
  {
    var r, g, b := color.r, color.g, color.b;
    var max := Max(r, Max(g, b));
    if max == r {
      d := g - b;
      t := RatioBack(d, delta);
      corner := if d >= 0.0 then 0 else 3;
      assert (t / 6.0).Floor == if d >= 0.0 then 0 else -1;
    } else if max == g {
      d := b - r;
      t := RatioBack(d, delta);
      corner := 1;
    } else {
      d := r - g;
      t := RatioBack(d, delta);
      corner := 2;
    }
  }

  /** The channels of a hue near an even corner, told by the side it is on. */
  lemma SectorNear(corner: int, t: real, cm: real, xm: real, m: real)
    requires corner in {0, 1, 2, 3} && -1.0 <= t <= 1.0 && 2.0 * corner as real + t >= 0.0
    requires Abs(t) == 1.0 ==> xm == cm
    requires corner == 3 ==> t < 0.0
    ensures Sector((2.0 * corner as real + t).Floor, cm, xm, m) ==
            match corner
            case 0 => (cm, xm, m)
            case 1 => if t >= 0.0 then (m, cm, xm) else (xm, cm, m)
            case 2 => if t >= 0.0 then (xm, m, cm) else (m, xm, cm)
            case _ => (cm, m, xm)
  {
    var f := (2.0 * corner as real + t).Floor;
    assert f == 2 * corner + t.Floor;
    if t == 1.0 {
      assert t.Floor == 1;
    } else if t >= 0.0 {
      assert t.Floor == 0;
    } else {
      assert t.Floor == -1;
    }
  }

  /** A grey has no saturation. */
  lemma GreyHsla(color: Rgba)
    requires InRange(color) && color.r == color.g == color.b
    ensures ToHsla(color) == Hsla(0.0, 0.0, color.r, color.a)
  {
    var x := if color.r < 0.5 then 2.0 * color.r else 2.0 - 2.0 * color.r;
    if x != 0.0 {
      assert 0.0 / x == 0.0;
    }
  }

  lemma GreyChannels(color: Hsla)
    requires color.h == 0.0 && color.s == 0.0
    ensures Channels(color) == (color.l, color.l, color.l)
  {
    assert Chroma(color.s, color.l) == 0.0;
  }

  /** What the hue of a colour says: the corner it is near, and the side. */
  ghost predicate NearCorner(color: Rgba, max: real, corner: int, d: real) {
    match corner
    case 0 => color.r == max && d == color.g - color.b && d >= 0.0
    case 1 => color.g == max && d == color.b - color.r && color.r < color.g
    case 2 => color.b == max && d == color.r - color.g && color.r < color.b && color.g < color.b
    case 3 => color.r == max && d == color.g - color.b && d < 0.0
    case _ => false
  }

  /** The middle channel lies above the smallest by the distance from the even corner. */
  lemma SectorBack(color: Rgba, max: real, min: real, corner: int, d: real, t: real)
    requires max == Max(color.r, Max(color.g, color.b)) && min == Min(color.r, Min(color.g, color.b)) && min < max
    requires NearCorner(color, max, corner, d) && Ratio(t, d, max - min) && 2.0 * corner as real + t >= 0.0
    ensures Sector((2.0 * corner as real + t).Floor, max, Abs(d) + min, min) == (color.r, color.g, color.b)
  {
    SectorNear(corner, t, max, Abs(d) + min, min);
  }

  lemma FromChromaBack(color: Rgba, max: real, min: real, delta: real, corner: int, d: real, t: real, hue6: real)
    requires max == Max(color.r, Max(color.g, color.b)) && min == Min(color.r, Min(color.g, color.b)) && min < max
    requires delta == max - min && Ratio(t, d, delta) && NearCorner(color, max, corner, d)
    requires hue6 == 2.0 * corner as real + t && hue6 >= 0.0
    ensures FromChroma(hue6, delta, min) == (color.r, color.g, color.b)
  {
    TentNear(corner, t);
    SectorBack(color, max, min, corner, d, t);
  }

  /** Before clamping, the channels of the converted colour are the original ones. */
  lemma ChannelsBack(color: Rgba)
    requires InRange(color)
    ensures Channels(ToHsla(color)) == (color.r, color.g, color.b)
  {
    if color.r == color.g == color.b {
      GreyHsla(color);
      GreyChannels(ToHsla(color));
    } else {
      var max, min := Max(color.r, Max(color.g, color.b)), Min(color.r, Min(color.g, color.b));
      SaturationBack(color, max, min);
      var corner, d, t := HueOf(color, max - min);
      FromChromaBack(color, max, min, max - min, corner, d, t, ToHsla(color).h * 6.0);
    }
  }

  /** The chroma and the smallest channel can be read off the saturation and the lightness. */
  lemma SaturationBack(color: Rgba, max: real, min: real)
    requires InRange(color)
    requires max == Max(color.r, Max(color.g, color.b)) && min == Min(color.r, Min(color.g, color.b))
    ensures var hsl := ToHsla(color);
            && Chroma(hsl.s, hsl.l) == max - min
            && hsl.l - (max - min) / 2.0 == min
            && Unit(hsl.s) && Unit(hsl.l)
  {
    ChromaBack(max, min);
  }

  /** Converting to HSL and back changes nothing. */
  lemma RoundTrip(color: Rgba)
    requires InRange(color)
    ensures ToRgba(ToHsla(color)) == color
  {
    ChannelsBack(color);
  }

  /** So different colours stay different in HSL. */
  lemma ToHslaInjective(a: Rgba, b: Rgba)
    requires InRange(a) && InRange(b) && ToHsla(a) == ToHsla(b)
    ensures a == b
  {
    RoundTrip(a);
    RoundTrip(b);
  }

  /** The HSL values of a colour are in range. */
  lemma ToHslaInRange(color: Rgba)
    requires InRange(color)
    ensures HslInRange(ToHsla(color))
  {
    var max := Max(color.r, Max(color.g, color.b));
    ChromaBack(max, Min(color.r, Min(color.g, color.b)));
    if !(color.r == color.g == color.b) {
      var corner, d, t := HueOf(color, max - Min(color.r, Min(color.g, color.b)));
    }
  }

  // ---------- Range ----------

  lemma RemInRange(x: real)
    requires x >= 0.0
    ensures 0.0 <= Rem(x, 2.0) < 2.0
  {
    var n := (x / 2.0).Floor;
    assert n as real <= x / 2.0 < n as real + 1.0;
  }

  lemma TentInRange(hue6: real)
    requires hue6 >= 0.0
    ensures Unit(Tent(hue6))
  {
    RemInRange(hue6);
  }

  lemma ChromaInRange(s: real, l: real) returns (c: real)
    requires Unit(s) && Unit(l)
    ensures c == Chroma(s, l) && 0.0 <= c && 0.0 <= l - c / 2.0 && l + c / 2.0 <= 1.0
  {
    c := Middle(1.0 - Abs(2.0 * l - 1.0), s);
  }

  lemma SectorInRange(sector: int, cm: real, xm: real, m: real)
    requires Unit(cm) && Unit(xm) && Unit(m)
    ensures var (r, g, b) := Sector(sector, cm, xm, m); Unit(r) && Unit(g) && Unit(b)
  {
  }

  lemma FromChromaInRange(hue6: real, c: real, m: real)
    requires hue6 >= 0.0 && 0.0 <= c && 0.0 <= m && m + c <= 1.0
    ensures var (r, g, b) := FromChroma(hue6, c, m); Unit(r) && Unit(g) && Unit(b)
  {
    TentInRange(hue6);
    SectorInRange(hue6.Floor, c + m, Middle(c, Tent(hue6)) + m, m);
  }

  /** Clamping never does anything: the channels of any HSL colour in range are in range. */
  lemma ClampIsNoOp(color: Hsla)
    requires HslInRange(color)
    ensures var (r, g, b) := Channels(color);
            && Unit(r) && Unit(g) && Unit(b)
            && ToRgba(color) == Rgba(r, g, b, color.a)
  {
    var c := ChromaInRange(color.s, color.l);
    FromChromaInRange(color.h * 6.0, c, color.l - c / 2.0);
  }

  /** A blended channel lies between the two it is blended from. */
  lemma MixBetween(x: real, y: real, a: real)
    requires Unit(a)
    ensures Min(x, y) <= Mix(x, y, a) <= Max(x, y)
  {
    var low, high := Min(x, y), Max(x, y);
    var up := Middle(high - low, if x <= y then a else 1.0 - a);
    assert Mix(x, y, a) == low + up;
  }

  /** It goes evenly from the one to the other as the alpha goes from 0 to 1. */
  lemma MixIsEven(x: real, y: real, a: real, b: real)
    ensures Mix(x, y, 0.0) == x && Mix(x, y, 1.0) == y
    ensures Mix(x, y, a) - Mix(x, y, b) == (a - b) * (y - x)
  {
    MixFrom(x, y, a);
    MixFrom(x, y, b);
  }

  lemma MixFrom(x: real, y: real, a: real)
    ensures Mix(x, y, a) == x + a * (y - x)
  {
  }

  /** Each channel of a blend goes evenly from the colour below to the colour above. */
  lemma BlendIsEven(self: Rgba, other: Rgba)
    requires Unit(other.a)
    ensures var c := Blend(self, other);
            && c.r - self.r == other.a * (other.r - self.r)
            && c.g - self.g == other.a * (other.g - self.g)
            && c.b - self.b == other.a * (other.b - self.b)
  {
    var c := Blend(self, other);
    EvenChannel(self.r, other.r, other.a, c.r);
    EvenChannel(self.g, other.g, other.a, c.g);
    EvenChannel(self.b, other.b, other.a, c.b);
  }

  lemma EvenChannel(x: real, y: real, a: real, z: real)
    requires (a == 0.0 && z == x) || (a == 1.0 && z == y) || z == Mix(x, y, a)
    ensures z - x == a * (y - x)
  {
    MixFrom(x, y, a);
  }

  /** A full turn of the hue changes nothing. */
  lemma FullTurn(color: Hsla)
    requires HslInRange(color) && color.h == 1.0
    ensures ToRgba(color) == ToRgba(color.(h := 0.0))
  {
    var c := Chroma(color.s, color.l);
    assert (6.0 as real).Floor == 6 && (0.0 as real).Floor == 0;
    assert Tent(6.0) == 0.0 && Tent(0.0) == 0.0 by {
      TentNear(3, 0.0);
      TentNear(0, 0.0);
    }
  }

  /** A colour above that is transparent or opaque, or beyond either, leaves one of the two as it is. */
  lemma BlendAtEnds(self: Rgba, other: Rgba)
    ensures other.a <= 0.0 ==> Blend(self, other) == self
    ensures other.a >= 1.0 ==> Blend(self, other) == other
  {
  }

  /** Clamping gives the nearest value in range. */
  lemma ClampIsNearest(x: real, y: real)
    requires Unit(y)
    ensures Unit(Clamp(x)) && Abs(x - Clamp(x)) <= Abs(x - y)
  {
  }

  /** So any HSL value whatever, also one out of range, gives channels in range. */
  lemma ToRgbaInRange(color: Hsla)
    ensures var c := ToRgba(color); Unit(c.r) && Unit(c.g) && Unit(c.b) && c.a == color.a
  {
  }

  /** The remainder by two: an even number away, less than two, and on the side of the dividend. */
  lemma RemIs(x: real) returns (n: int)
    ensures x - Rem(x, 2.0) == 2.0 * n as real
    ensures x >= 0.0 ==> 0.0 <= Rem(x, 2.0) < 2.0
    ensures Rem(-x, 2.0) == -Rem(x, 2.0)
  {
    if x >= 0.0 {
      n := (x / 2.0).Floor;
      RemInRange(x);
    } else {
      n := -((-x / 2.0).Floor);
    }
  }

  /** The corners of the hue circle. */
  lemma Primaries(color: Rgba)
    ensures color.r == 1.0 && color.g == color.b == 0.0 ==> ToHsla(color) == Hsla(0.0, 1.0, 0.5, color.a)
    ensures color.g == 1.0 && color.r == color.b == 0.0 ==> ToHsla(color) == Hsla(1.0 / 3.0, 1.0, 0.5, color.a)
    ensures color.b == 1.0 && color.r == color.g == 0.0 ==> ToHsla(color) == Hsla(2.0 / 3.0, 1.0, 0.5, color.a)
  {
    RemEuclidNear(0.0);
  }

  predicate Between(z: real, x: real, y: real) {
    Min(x, y) <= z <= Max(x, y)
  }

  /** Blending keeps colours in range, each channel between the two it comes from. */
  lemma BlendInRange(self: Rgba, other: Rgba)
    requires InRange(self) && InRange(other)
    ensures var c := Blend(self, other);
            && InRange(c)
            && Between(c.r, self.r, other.r) && Between(c.g, self.g, other.g) && Between(c.b, self.b, other.b)
            && c.a == if other.a == 1.0 then 1.0 else self.a
  {
    if 0.0 < other.a < 1.0 {
      var c := Blend(self, other);
      MixBetween(self.r, other.r, other.a);
      assert Between(c.r, self.r, other.r);
      MixBetween(self.g, other.g, other.a);
      assert Between(c.g, self.g, other.g);
      MixBetween(self.b, other.b, other.a);
      assert Between(c.b, self.b, other.b);
    }
  }

  // ---------- The other way round ----------

  /** HSL values that say nothing twice: hues below a full turn, and none where there is no chroma. */
  predicate Canonical(color: Hsla) {
    && color.h < 1.0
    && (color.l == 0.0 || color.l == 1.0 ==> color.s == 0.0)
    && (color.s == 0.0 ==> color.h == 0.0)
  }

  lemma ProductRatio(c: real, t: real)
    requires c > 0.0
    ensures c * t / c == t
  {
    SameFactor(c, c * t / c, t);
  }

  /** The saturation can be read off the chroma and the lightness. */
  lemma SaturationOfChroma(s: real, l: real, k: real)
    requires Unit(s) && 0.0 < l < 1.0 && k == if l < 0.5 then 2.0 * l else 2.0 - 2.0 * l
    ensures k > 0.0 && Chroma(s, l) / k == s
    ensures s > 0.0 ==> Chroma(s, l) > 0.0
  {
    assert 1.0 - Abs(2.0 * l - 1.0) == k;
    assert Chroma(s, l) == k * s;
    ProductRatio(k, s);
  }

  /** The even corner that a hue is near, and its distance from it. */
  lemma CornerOf(hue6: real) returns (corner: int, t: real)
    requires 0.0 <= hue6 < 6.0
    ensures hue6 == 2.0 * corner as real + t && corner in {0, 1, 2, 3} && -1.0 <= t <= 1.0
    ensures OnSide(corner, t)
  {
    corner := if hue6 <= 1.0 then 0 else if hue6 <= 3.0 then 1 else if hue6 < 5.0 then 2 else 3;
    t := hue6 - 2.0 * corner as real;
  }

  /** The channels near a corner: the largest, the middle and the smallest one, in the order of the corner's side. */
  ghost predicate AtCorner(color: Rgba, corner: int, t: real, cm: real, xm: real, m: real) {
    match corner
    case 0 => color.r == cm && color.g == xm && color.b == m
    case 1 => color.g == cm && if t >= 0.0 then color.r == m && color.b == xm else color.r == xm && color.b == m
    case 2 => color.b == cm && if t >= 0.0 then color.r == xm && color.g == m else color.r == m && color.g == xm
    case _ => color.r == cm && color.g == m && color.b == xm
  }

  lemma MiddleBelow(c: real, t: real) returns (p: real)
    requires c > 0.0 && -1.0 <= t <= 1.0
    ensures p == Middle(c, Abs(t)) && 0.0 <= p <= c
    ensures -1.0 < t < 1.0 ==> p < c
    ensures if t >= 0.0 then c * t == p else c * t == -p
  {
    var f := Abs(t);
    p := Middle(c, f);
    assert p == c * f;
    if f < 1.0 {
      ScaleDown(c, f);
    }
    assert t < 0.0 ==> c * f == -(c * t);
  }

  lemma ScaleDown(c: real, f: real)
    requires c > 0.0 && f < 1.0
    ensures c * f < c
  {
    assert c * (1.0 - f) > 0.0;
  }

  /** The side of the corner that `t` is on decides between two corners. */
  predicate OnSide(corner: int, t: real) {
    match corner
    case 0 => t >= 0.0
    case 1 => -1.0 < t
    case 2 => -1.0 < t < 1.0
    case _ => t < 0.0
  }

  /** The difference of channels that the hue is computed from. */
  function Difference(color: Rgba, corner: int): real {
    if corner == 1 then color.b - color.r else if corner == 2 then color.r - color.g else color.g - color.b
  }

  lemma RemEuclidNear(t: real)
    requires -1.0 <= t <= 1.0
    ensures RemEuclid(t, 6.0) == if t >= 0.0 then t else t + 6.0
  {
    assert (t / 6.0).Floor == if t >= 0.0 then 0 else -1;
  }

  /** Which channel is the largest, as the hue asks for it. */
  predicate LargestAt(color: Rgba, corner: int, max: real) {
    match corner
    case 1 => max == color.g && max != color.r
    case 2 => max == color.b && max != color.r && max != color.g
    case _ => max == color.r
  }

  lemma CornerFacts(color: Rgba, corner: int, t: real, cm: real, xm: real, m: real)
    requires corner in {0, 1, 2, 3} && OnSide(corner, t) && AtCorner(color, corner, t, cm, xm, m)
    requires m <= xm <= cm && m < cm && (-1.0 < t < 1.0 ==> xm < cm)
    ensures Max(color.r, Max(color.g, color.b)) == cm && Min(color.r, Min(color.g, color.b)) == m
    ensures LargestAt(color, corner, cm)
    ensures Difference(color, corner) == if t >= 0.0 then xm - m else m - xm
  {
  }

  lemma HueAt(color: Rgba, corner: int, t: real, max: real, delta: real)
    requires corner in {0, 1, 2, 3} && -1.0 <= t <= 1.0 && OnSide(corner, t)
    requires delta != 0.0 && Difference(color, corner) / delta == t && LargestAt(color, corner, max)
    ensures Hue(color, max, delta) == (2.0 * corner as real + t) / 6.0
  {
    RemEuclidNear(t);
  }

  /** The chroma and the hue of such a colour are the given ones. */
  lemma HueBack(color: Rgba, corner: int, t: real, c: real, m: real, cm: real, xm: real)
    requires c > 0.0 && corner in {0, 1, 2, 3} && -1.0 <= t <= 1.0 && OnSide(corner, t)
    requires cm == c + m && xm == Middle(c, Abs(t)) + m && AtCorner(color, corner, t, cm, xm, m)
    ensures Max(color.r, Max(color.g, color.b)) == cm && Min(color.r, Min(color.g, color.b)) == m
    ensures Hue(color, cm, c) == (2.0 * corner as real + t) / 6.0
  {
    var p := MiddleBelow(c, t);
    CornerFacts(color, corner, t, cm, xm, m);
    ProductRatio(c, t);
    HueAt(color, corner, t, cm, c);
  }

  lemma ChannelsAtCorner(color: Hsla, corner: int, t: real, c: real, m: real, cm: real, xm: real)
    requires corner in {0, 1, 2, 3} && -1.0 <= t <= 1.0 && color.h * 6.0 == 2.0 * corner as real + t >= 0.0
    requires corner == 3 ==> t < 0.0
    requires c == Chroma(color.s, color.l) && m == color.l - c / 2.0
    requires cm == c + m && xm == Middle(c, Abs(t)) + m
    ensures var (r, g, b) := Channels(color); AtCorner(Rgba(r, g, b, color.a), corner, t, cm, xm, m)
  {
    TentNear(corner, t);
    if Abs(t) == 1.0 {
      assert Middle(c, Abs(t)) == c;
    }
    SectorNear(corner, t, cm, xm, m);
  }

  lemma ColouredBack(color: Hsla)
    requires HslInRange(color) && color.h < 1.0 && color.s > 0.0 && 0.0 < color.l < 1.0
    ensures ToHsla(ToRgba(color)) == color
  {
    ClampIsNoOp(color);
    var c := Chroma(color.s, color.l);
    var m := color.l - c / 2.0;
    SaturationOfChroma(color.s, color.l, if color.l < 0.5 then 2.0 * color.l else 2.0 - 2.0 * color.l);
    var corner, t := CornerOf(color.h * 6.0);
    var xm := Middle(c, Abs(t)) + m;
    ChannelsAtCorner(color, corner, t, c, m, c + m, xm);
    HueBack(ToRgba(color), corner, t, c, m, c + m, xm);
  }

  lemma GreyBack(color: Hsla)
    requires HslInRange(color) && color.h == 0.0 && color.s == 0.0
    ensures ToHsla(ToRgba(color)) == color
  {
    GreyChannels(color);
    GreyHsla(Rgba(color.l, color.l, color.l, color.a));
  }

  lemma ToHslaIsCanonical(color: Rgba)
    requires InRange(color)
    ensures Canonical(ToHsla(color))
  {
    var max, min := Max(color.r, Max(color.g, color.b)), Min(color.r, Min(color.g, color.b));
    if !(color.r == color.g == color.b) {
      var corner, d, t := HueOf(color, max - min);
      SaturationBack(color, max, min);
      var hsl := ToHsla(color);
      assert hsl.s == 0.0 ==> Chroma(hsl.s, hsl.l) == 0.0;
    }
  }

  /** HSL to RGB and back is the identity on exactly the canonical values. */
  lemma HslRoundTripIff(color: Hsla)
    requires HslInRange(color)
    ensures ToHsla(ToRgba(color)) == color <==> Canonical(color)
  {
    if Canonical(color) {
      if color.s == 0.0 {
        GreyBack(color);
      } else {
        ColouredBack(color);
      }
    } else {
      ClampIsNoOp(color);
      ToHslaIsCanonical(ToRgba(color));
    }
  }
}
