/**
What the colour distance of pixelmatch/pixelmatch.go means: how a transparent pixel is shown,
what brightness and chroma are, and when two colours are no distance apart.
*/
module ColourDistance {
  import opened Octets
  import opened Pixels

  const WHITE := 255.0

  /** Alphas from here on count as opaque: 255 times 256. */
  const OPAQUE := 0xff00

  // ---------- how a pixel is shown ----------

  lemma {:induction false} BlendIsBetween(c: real, t: real)
    requires 0.0 <= t <= 1.0
    ensures c <= WHITE ==> c <= Blend(c, t) <= WHITE
    ensures c >= WHITE ==> WHITE <= Blend(c, t) <= c
  {
    if c >= 255.0 {
      NotNegative(c - 255.0, t);
      NotNegative(c - 255.0, 1.0 - t);
    } else {
      NotNegative(255.0 - c, t);
      NotNegative(255.0 - c, 1.0 - t);
    }
  }

  lemma {:induction false} NotNegative(x: real, y: real)
    requires x >= 0.0 && y >= 0.0
    ensures x * y >= 0.0
  {
  }

  /** A fully transparent pixel is white, whatever its components. */
  lemma {:induction false} TransparentIsWhite(c: nat)
    ensures Shown(c, 0) == WHITE
  {
    assert Component(0) / 255.0 == 0.0;
  }

  /** An opaque one shows its own component. */
  lemma {:induction false} OpaqueIsItself(c: nat, alpha: nat)
    requires alpha >= OPAQUE
    ensures Shown(c, alpha) == c as real / 256.0
  {
    assert (alpha as real) >= 65280.0;
  }

  /** What is shown lies between the component and white. */
  lemma {:induction false} ShownIsBetween(c: nat, alpha: nat)
    ensures Component(c) <= WHITE ==> Component(c) <= Shown(c, alpha) <= WHITE
    ensures Component(c) >= WHITE ==> WHITE <= Shown(c, alpha) <= Component(c)
  {
    if Component(alpha) < 255.0 {
      BlendIsBetween(Component(c), Component(alpha) / 255.0);
    }
  }

  /** The way from white is in proportion to the alpha. */
  lemma {:induction false} ShownInProportion(c: nat, alpha: nat, beta: nat)
    requires alpha < OPAQUE && beta < OPAQUE
    ensures (WHITE - Shown(c, alpha)) * beta as real == (WHITE - Shown(c, beta)) * alpha as real
  {
    var d := 255.0 - Component(c);
    assert WHITE - Shown(c, alpha) == d * (alpha as real / 65280.0) by {
      assert (alpha as real) < 65280.0 && Component(alpha) / 255.0 == alpha as real / 65280.0;
    }
    assert WHITE - Shown(c, beta) == d * (beta as real / 65280.0) by {
      assert (beta as real) < 65280.0 && Component(beta) / 255.0 == beta as real / 65280.0;
    }
  }

  /** The component over white, as alpha-premultiplied components are composed. */
  function Composed(c: nat, alpha: nat): real { Component(c) + (WHITE - Component(alpha)) }

  /**
  The components that `readLine` yields are multiplied by their alpha already, and blending multiplies
  them again: what is shown is the pixel over white if and only if the component is 0 or the alpha is 255.
  */
  lemma {:induction false} BlendedTwice(c: nat, alpha: nat)
    requires alpha <= OPAQUE
    ensures Shown(c, alpha) == Composed(c, alpha) <==> c == 0 || alpha == OPAQUE
  {
    var x, t := Component(c), Component(alpha) / 255.0;
    if alpha < OPAQUE {
      assert (alpha as real) < 65280.0 && t < 1.0 && t * 255.0 == Component(alpha);
      assert Shown(c, alpha) == 255.0 + (x - 255.0) * t;
      assert (x - 255.0) * t == x * t - 255.0 * t;
      assert Shown(c, alpha) - Composed(c, alpha) == x * t - x;
      assert x * t - x == x * (t - 1.0);
    }
  }

  /** A white pixel of half its alpha is shown grey, not white. */
  lemma {:induction false} HalfWhiteIsGrey()
    ensures
      var c := Decode(NRGBA, [255, 255, 255, 128]);
      c == Rgba(32896, 32896, 32896, 32896) && Shown(c.r, c.a) < 192.0 && Composed(c.r, c.a) == WHITE
  {
  }

  // ---------- brightness and chroma ----------

  /** The colour as it is shown. */
  datatype Light = Light(r: real, g: real, b: real)

  function LightOf(c: Rgba): Light { Light(Shown(c.r, c.a), Shown(c.g, c.a), Shown(c.b, c.a)) }

  /** The sum of the weights of the luma is a little more than one. */
  const WEIGHTS := 1.00000001

  predicate Grey(l: Light) { l.r == l.g == l.b }

  /** A grey pixel has no chroma, and its luma is its component. */
  lemma {:induction false} GreyHasNoChroma(c: Rgba)
    requires Grey(LightOf(c))
    ensures I(c) == 0.0 && Q(c) == 0.0 && Y(c) == WEIGHTS * LightOf(c).r
  {
    hide Shown;
  }

  /** So the distance of two greys is that of their components. */
  lemma {:induction false} GreyDistance(a: Rgba, b: Rgba)
    requires Grey(LightOf(a)) && Grey(LightOf(b))
    ensures Abs(ColorDelta(a, b)) == 0.5053 * Square(WEIGHTS * (LightOf(a).r - LightOf(b).r))
  {
    hide Shown, Y, I, Q, Square;
    GreyHasNoChroma(a);
    GreyHasNoChroma(b);
    var d := WEIGHTS * (LightOf(a).r - LightOf(b).r);
    assert Y(a) - Y(b) == d;
    SquareIsZero(d);
    SquareIsZero(0.0);
  }

  lemma {:induction false} SquareIsZero(x: real)
    ensures Square(x) >= 0.0 && (Square(x) == 0.0 <==> x == 0.0)
  {
    if x != 0.0 {
      var s := Square(x);
      assert s / x == x;
      assert if x < 0.0 then s / x < 0.0 else s / x > 0.0;
    }
  }

  /** The primaries: green is brighter than red, red than blue; their chroma tells them apart. */
  lemma {:induction false} Primaries(c: nat, alpha: nat)
    requires alpha >= OPAQUE
    ensures
      var red, green, blue := Rgba(c, 0, 0, alpha), Rgba(0, c, 0, alpha), Rgba(0, 0, c, alpha);
      var x := c as real / 256.0;
      && Y(red) == 0.29889531 * x && Y(green) == 0.58662247 * x && Y(blue) == 0.11448223 * x
      && I(red) == 0.59597799 * x && I(green) == -0.27417610 * x && I(blue) == -0.32180189 * x
      && Q(red) == 0.21147017 * x && Q(green) == -0.52261711 * x && Q(blue) == 0.31114694 * x
  {
    OpaqueIsItself(c, alpha);
    OpaqueIsItself(0, alpha);
  }

  /** The luma grows with each component that is shown brighter. */
  lemma {:induction false} BrighterHasMoreLuma(a: Rgba, b: Rgba)
    requires LightOf(a).r <= LightOf(b).r && LightOf(a).g <= LightOf(b).g && LightOf(a).b <= LightOf(b).b
    ensures Y(a) <= Y(b) && (LightOf(a) != LightOf(b) ==> Y(a) < Y(b))
  {
  }

  // ---------- the distance ----------

  /** The distance is 0 exactly for colours shown alike; its sign is negative exactly when the first has more luma. */
  lemma {:induction false} DistanceMeans(a: Rgba, b: Rgba)
    ensures ColorDelta(a, b) == 0.0 <==> LightOf(a) == LightOf(b)
    ensures ColorDelta(a, b) < 0.0 <==> Y(a) > Y(b)
  {
    var y, i, q := Y(a) - Y(b), I(a) - I(b), Q(a) - Q(b);
    SquareIsZero(y);
    SquareIsZero(i);
    SquareIsZero(q);
    LightFromLuma(a, b);
    if a == b {
      assert LightOf(a) == LightOf(b) && Y(a) == Y(b);
    }
  }

  /** Luma and chroma determine the light. */
  lemma {:induction false} LightFromLuma(a: Rgba, b: Rgba)
    ensures Y(a) == Y(b) && I(a) == I(b) && Q(a) == Q(b) <==> LightOf(a) == LightOf(b)
  {
    hide Shown;
    var l, m := LightOf(a), LightOf(b);
    LightIsDetermined(l.r - m.r, l.g - m.g, l.b - m.b);
  }

  lemma {:induction false} LightIsDetermined(r: real, g: real, b: real)
    ensures LumaY(r, g, b) == 0.0 && LumaI(r, g, b) == 0.0 && LumaQ(r, g, b) == 0.0 ==> r == g == b == 0.0
  {
  }

  /** Two fully transparent pixels are no distance apart, whatever their components. */
  lemma {:induction false} TransparentAreAlike(a: Rgba, b: Rgba)
    requires a.a == 0 && b.a == 0
    ensures ColorDelta(a, b) == 0.0
  {
    TransparentIsWhite(a.r);
    TransparentIsWhite(a.g);
    TransparentIsWhite(a.b);
    TransparentIsWhite(b.r);
    TransparentIsWhite(b.g);
    TransparentIsWhite(b.b);
    DistanceMeans(a, b);
  }

  /** One and an opaque white are so close that every threshold from 0.004 on lets it pass. */
  lemma {:induction false} TransparentAgainstWhite(a: Rgba, b: Rgba)
    requires a.a == 0 && b == Rgba(0xffff, 0xffff, 0xffff, 0xffff)
    ensures Abs(ColorDelta(a, b)) < 0.51 < 35215.0 * 0.004 * 0.004
  {
    hide Shown, ColorDelta;
    TransparentIsWhite(a.r);
    TransparentIsWhite(a.g);
    TransparentIsWhite(a.b);
    OpaqueIsItself(0xffff, 0xffff);
    GreyDistance(a, b);
  }

  // ---------- the factor of the threshold ----------

  /**
  35215 is the distance of red and cyan with components of 255, rounded up; but a component of 255
  is decoded as 65535 over 256, and those two are further apart.
  */
  lemma {:induction false} RedAgainstCyan()
    ensures
      var red, cyan := Rgba(OPAQUE, 0, 0, OPAQUE), Rgba(0, OPAQUE, OPAQUE, OPAQUE);
      35214.0 < Abs(ColorDelta(red, cyan)) <= 35215.0
    ensures
      var red, cyan := Rgba(0xffff, 0, 0, 0xffff), Rgba(0, 0xffff, 0xffff, 0xffff);
      35490.0 < Abs(ColorDelta(red, cyan)) < 35491.0
  {
  }
}
