/**
What the count of pixelmatch/pixelmatch.go and its tests on a pixel's surroundings mean in
terms of points: how many points differ, how many neighbours look alike, and which neighbour
is the brightest and which the darkest.
*/
module PixelGeometry {
  import opened Octets
  import opened Pixels
  import opened PixelMatch
  import opened ColourDistance

  // ---------- the points around a pixel ----------

  predicate IsAround(r: Rect, c: Point, p: Point) {
    r.Contains(p.x, p.y) && p != c && -1 <= p.x - c.x <= 1 && -1 <= p.y - c.y <= 1
  }

  /** Column by column, and from the top in each. */
  predicate Earlier(p: Point, q: Point) { p.x < q.x || (p.x == q.x && p.y < q.y) }

  predicate InOrder(ps: seq<Point>) { forall i, j :: 0 <= i < j < |ps| ==> Earlier(ps[i], ps[j]) }

  lemma {:induction false} ColumnInOrder(r: Rect, c: Point, x: int, y: int)
    ensures InOrder(ColumnTo(r, c, x, y))
    decreases y - Top(r, c.y)
  {
    if y > Top(r, c.y) {
      ColumnInOrder(r, c, x, y - 1);
      forall p | p in ColumnTo(r, c, x, y - 1)
        ensures p.x == x && p.y < y - 1
      {
        InColumn(r, c, x, y - 1, p);
      }
    }
  }

  lemma {:induction false} ColumnsInOrder(r: Rect, c: Point, x: int)
    ensures InOrder(ColumnsTo(r, c, x))
    decreases x - Left(r, c.x)
  {
    hide ColumnTo, Top, Bottom;
    if x > Left(r, c.x) {
      ColumnsInOrder(r, c, x - 1);
      ColumnInOrder(r, c, x - 1, Bottom(r, c.y) + 1);
      forall p
        ensures p in ColumnsTo(r, c, x - 1) ==> p.x < x - 1
        ensures p in ColumnTo(r, c, x - 1, Bottom(r, c.y) + 1) ==> p.x == x - 1
      {
        InColumns(r, c, x - 1, p);
        InColumn(r, c, x - 1, Bottom(r, c.y) + 1, p);
      }
    }
  }

  /** The neighbours are visited in this order, so each once. */
  lemma {:induction false} NeighboursInOrder(r: Rect, c: Point)
    ensures InOrder(Neighbours(r, c))
  {
    ColumnsInOrder(r, c, Right(r, c.x) + 1);
  }

  /** The border is the outermost rows and columns. */
  lemma {:induction false} BonusOnBorder(r: Rect, c: Point)
    requires r.Contains(c.x, c.y)
    ensures BorderBonus(r, c) ==
      if c.x == r.minX || c.x == r.maxX - 1 || c.y == r.minY || c.y == r.maxY - 1 then 1 else 0
  {
  }

  // ---------- counting ----------

  /** The points at which a list of values has this one. */
  function PointsWith<T(==)>(ps: seq<Point>, vs: seq<T>, v: T): set<Point>
    requires |ps| == |vs|
  {
    set i | 0 <= i < |ps| && vs[i] == v :: ps[i]
  }

  lemma {:induction false} CountIsCardinality<T>(ps: seq<Point>, vs: seq<T>, v: T)
    requires |ps| == |vs| && InOrder(ps)
    ensures multiset(vs)[v] == |PointsWith(ps, vs, v)|
  {
    hide InOrder, Earlier;
    if ps == [] {
      assert vs == [] && PointsWith(ps, vs, v) == {};
    } else {
      var n := |ps| - 1;
      OrderBefore(ps, n);
      CountIsCardinality(ps[..n], vs[..n], v);
      assert vs == vs[..n] + [vs[n]];
      LastPoint(ps, vs, v);
      OneMore(PointsWith(ps[..n], vs[..n], v), PointsWith(ps, vs, v), ps[n], vs[n] == v);
    }
  }

  lemma {:induction false} OrderBefore(ps: seq<Point>, n: nat)
    requires InOrder(ps) && n < |ps|
    ensures InOrder(ps[..n]) && ps[n] !in ps[..n]
  {
  }

  lemma {:induction false} LastPoint<T>(ps: seq<Point>, vs: seq<T>, v: T)
    requires |ps| == |vs| > 0 && ps[|ps| - 1] !in ps[..|ps| - 1]
    ensures
      var n := |ps| - 1;
      var before := PointsWith(ps[..n], vs[..n], v);
      && ps[n] !in before
      && forall q :: q in PointsWith(ps, vs, v) <==> q in before || (q == ps[n] && vs[n] == v)
  {
    var n := |ps| - 1;
    var before := PointsWith(ps[..n], vs[..n], v);
    forall q
      ensures q in PointsWith(ps, vs, v) <==> q in before || (q == ps[n] && vs[n] == v)
    {
      if q in before {
        var i :| 0 <= i < n && vs[..n][i] == v && ps[..n][i] == q;
        assert vs[i] == v && ps[i] == q;
      }
      if q in PointsWith(ps, vs, v) {
        var i :| 0 <= i < |ps| && vs[i] == v && ps[i] == q;
        assert i < n ==> vs[..n][i] == v && ps[..n][i] == q;
      }
    }
  }

  lemma {:induction false} OneMore(before: set<Point>, after: set<Point>, p: Point, more: bool)
    requires p !in before && forall q :: q in after <==> q in before || (q == p && more)
    ensures |after| == |before| + if more then 1 else 0
  {
    assert after == before + if more then {p} else {};
  }

  // ---------- siblings ----------

  /** The neighbours of the same colour. */
  function AlikeAround(img: Image, c: Point): set<Point>
    requires img.Valid() && img.bounds.Contains(c.x, c.y)
  {
    set x, y | c.x - 1 <= x <= c.x + 1 && c.y - 1 <= y <= c.y + 1
      && IsAround(img.bounds, c, Point(x, y)) && PixelAt(img, Point(x, y)) == PixelAt(img, c) :: Point(x, y)
  }

  /** Three neighbours of the pixel's own colour, or two on the border. */
  lemma {:induction false} SiblingsMean(img: Image, c: Point)
    requires img.Valid() && img.bounds.Contains(c.x, c.y)
    ensures ManySiblings(img, c) <==> |AlikeAround(img, c)| + BorderBonus(img.bounds, c) >= 3
  {
    hide Neighbours, BorderBonus, PixelAt;
    var ps, vs, v := Neighbours(img.bounds, c), Colours(img, c), PixelAt(img, c);
    NeighboursInOrder(img.bounds, c);
    CountIsCardinality(ps, vs, v);
    forall p
      ensures p in PointsWith(ps, vs, v) <==> p in AlikeAround(img, c)
    {
      NeighboursAreAround(img.bounds, c, p);
      if p in ps {
        var i :| 0 <= i < |ps| && ps[i] == p;
        ColourAt(img, c, i);
      }
      forall i | 0 <= i < |ps|
        ensures IsAround(img.bounds, c, ps[i]) && vs[i] == PixelAt(img, ps[i])
      {
        NeighboursAreAround(img.bounds, c, ps[i]);
        ColourAt(img, c, i);
      }
    }
    assert PointsWith(ps, vs, v) == AlikeAround(img, c);
  }

  lemma {:induction false} ColourAt(img: Image, c: Point, i: nat)
    requires img.Valid() && img.bounds.Contains(c.x, c.y) && i < |Neighbours(img.bounds, c)|
    ensures
      var p := Neighbours(img.bounds, c)[i];
      img.bounds.Contains(p.x, p.y) && Colours(img, c)[i] == PixelAt(img, p)
  {
    hide Neighbours, PixelAt;
    NeighboursAreAround(img.bounds, c, Neighbours(img.bounds, c)[i]);
  }

  // ---------- anti-aliasing ----------

  /** How much darker a neighbour is than the pixel. */
  function Level(img: Image, c: Point, p: Point): real
    requires img.Valid() && img.bounds.Contains(c.x, c.y) && img.bounds.Contains(p.x, p.y)
  {
    YDelta(PixelAt(img, c), PixelAt(img, p))
  }

  /** The neighbours exactly as bright. */
  function LevelAround(img: Image, c: Point): set<Point>
    requires img.Valid() && img.bounds.Contains(c.x, c.y)
  {
    set x, y | c.x - 1 <= x <= c.x + 1 && c.y - 1 <= y <= c.y + 1
      && IsAround(img.bounds, c, Point(x, y)) && Level(img, c, Point(x, y)) == 0.0 :: Point(x, y)
  }

  /** A neighbour brighter than the pixel, the first of those as bright, and none is brighter. */
  ghost predicate IsBrightest(img: Image, c: Point, p: Point)
    requires img.Valid() && img.bounds.Contains(c.x, c.y)
  {
    && IsAround(img.bounds, c, p) && Level(img, c, p) < 0.0
    && forall q :: IsAround(img.bounds, c, q) ==>
      Level(img, c, p) <= Level(img, c, q) && (Earlier(q, p) ==> Level(img, c, p) < Level(img, c, q))
  }

  /** A neighbour darker than the pixel, the first of those as dark, and none is darker. */
  ghost predicate IsDarkest(img: Image, c: Point, p: Point)
    requires img.Valid() && img.bounds.Contains(c.x, c.y)
  {
    && IsAround(img.bounds, c, p) && Level(img, c, p) > 0.0
    && forall q :: IsAround(img.bounds, c, q) ==>
      Level(img, c, p) >= Level(img, c, q) && (Earlier(q, p) ==> Level(img, c, p) > Level(img, c, q))
  }

  predicate Flat(a: Image, b: Image, p: Point)
    requires a.Valid() && b.Valid() && a.bounds == b.bounds
  {
    a.bounds.Contains(p.x, p.y) && ManySiblings(a, p) && ManySiblings(b, p)
  }

  lemma {:induction false} LevelAt(img: Image, c: Point, i: nat)
    requires img.Valid() && img.bounds.Contains(c.x, c.y) && i < |Neighbours(img.bounds, c)|
    ensures
      var p := Neighbours(img.bounds, c)[i];
      IsAround(img.bounds, c, p) && Levels(img, c)[i] == Level(img, c, p)
  {
    hide Neighbours, PixelAt;
    NeighboursAreAround(img.bounds, c, Neighbours(img.bounds, c)[i]);
    ColourAt(img, c, i);
  }

  /** The neighbour at an index, and the index of a neighbour. */
  lemma {:induction false} IndexOf(img: Image, c: Point, p: Point) returns (i: nat)
    requires img.Valid() && img.bounds.Contains(c.x, c.y) && IsAround(img.bounds, c, p)
    ensures i < |Neighbours(img.bounds, c)| && Neighbours(img.bounds, c)[i] == p
    ensures Levels(img, c)[i] == Level(img, c, p)
  {
    hide Neighbours, PixelAt;
    NeighboursAreAround(img.bounds, c, p);
    i :| 0 <= i < |Neighbours(img.bounds, c)| && Neighbours(img.bounds, c)[i] == p;
    LevelAt(img, c, i);
  }

  lemma {:induction false} BrightestIsFirstLeast(img: Image, c: Point, i: nat)
    requires img.Valid() && img.bounds.Contains(c.x, c.y) && i < |Neighbours(img.bounds, c)|
    ensures FirstLeast(Levels(img, c), i) <==> IsBrightest(img, c, Neighbours(img.bounds, c)[i])
  {
    hide Neighbours, Level, Levels;
    var ps, ds := Neighbours(img.bounds, c), Levels(img, c);
    NeighboursInOrder(img.bounds, c);
    LevelAt(img, c, i);
    if FirstLeast(ds, i) {
      forall q | IsAround(img.bounds, c, q)
        ensures Level(img, c, ps[i]) <= Level(img, c, q)
        ensures Earlier(q, ps[i]) ==> Level(img, c, ps[i]) < Level(img, c, q)
      {
        var j := IndexOf(img, c, q);
        assert i < j ==> Earlier(ps[i], q);
      }
    }
    if IsBrightest(img, c, ps[i]) {
      forall j | 0 <= j < |ds|
        ensures ds[i] <= ds[j] && (j < i ==> ds[i] < ds[j])
      {
        LevelAt(img, c, j);
      }
    }
  }

  lemma {:induction false} DarkestIsFirstGreatest(img: Image, c: Point, i: nat)
    requires img.Valid() && img.bounds.Contains(c.x, c.y) && i < |Neighbours(img.bounds, c)|
    ensures FirstGreatest(Levels(img, c), i) <==> IsDarkest(img, c, Neighbours(img.bounds, c)[i])
  {
    hide Neighbours, Level, Levels;
    var ps, ds := Neighbours(img.bounds, c), Levels(img, c);
    NeighboursInOrder(img.bounds, c);
    LevelAt(img, c, i);
    if FirstGreatest(ds, i) {
      forall q | IsAround(img.bounds, c, q)
        ensures Level(img, c, ps[i]) >= Level(img, c, q)
        ensures Earlier(q, ps[i]) ==> Level(img, c, ps[i]) > Level(img, c, q)
      {
        var j := IndexOf(img, c, q);
        assert i < j ==> Earlier(ps[i], q);
      }
    }
    if IsDarkest(img, c, ps[i]) {
      forall j | 0 <= j < |ds|
        ensures ds[i] >= ds[j] && (j < i ==> ds[i] > ds[j])
      {
        LevelAt(img, c, j);
      }
    }
  }

  lemma {:induction false} LevelCount(img: Image, c: Point)
    requires img.Valid() && img.bounds.Contains(c.x, c.y)
    ensures multiset(Levels(img, c))[0.0] == |LevelAround(img, c)|
  {
    hide Neighbours, Level, Levels;
    var ps, ds := Neighbours(img.bounds, c), Levels(img, c);
    NeighboursInOrder(img.bounds, c);
    CountIsCardinality(ps, ds, 0.0);
    forall p
      ensures p in PointsWith(ps, ds, 0.0) <==> p in LevelAround(img, c)
    {
      if p in LevelAround(img, c) {
        var i := IndexOf(img, c, p);
      }
      forall i | 0 <= i < |ps|
        ensures IsAround(img.bounds, c, ps[i]) && ds[i] == Level(img, c, ps[i])
      {
        LevelAt(img, c, i);
      }
    }
    assert PointsWith(ps, ds, 0.0) == LevelAround(img, c);
  }

  /** There is a brightest and a darkest neighbour, one of them in a flat area of both images. */
  ghost predicate Between(a: Image, b: Image, c: Point)
    requires a.Valid() && b.Valid() && a.bounds == b.bounds && a.bounds.Contains(c.x, c.y)
  {
    exists p, q :: IsBrightest(a, c, p) && IsDarkest(a, c, q) && (Flat(a, b, p) || Flat(a, b, q))
  }

  lemma {:induction false} FirstsAt(a: Image, b: Image, c: Point, i: nat)
    requires a.Valid() && b.Valid() && a.bounds == b.bounds && a.bounds.Contains(c.x, c.y)
    requires i < |Neighbours(a.bounds, c)|
    ensures FirstLeast(Levels(a, c), i) <==> IsBrightest(a, c, Neighbours(a.bounds, c)[i])
    ensures FirstGreatest(Levels(a, c), i) <==> IsDarkest(a, c, Neighbours(a.bounds, c)[i])
    ensures FlatInBoth(a, b, c, i) <==> Flat(a, b, Neighbours(a.bounds, c)[i])
  {
    hide Neighbours, Levels, FirstLeast, FirstGreatest, IsBrightest, IsDarkest, ManySiblings;
    LevelAt(a, c, i);
    BrightestIsFirstLeast(a, c, i);
    DarkestIsFirstGreatest(a, c, i);
  }

  lemma {:induction false} BetweenFrom(a: Image, b: Image, c: Point, lo: nat, hi: nat)
    requires a.Valid() && b.Valid() && a.bounds == b.bounds && a.bounds.Contains(c.x, c.y)
    requires lo < |Neighbours(a.bounds, c)| && hi < |Neighbours(a.bounds, c)|
    requires FirstLeast(Levels(a, c), lo) && FirstGreatest(Levels(a, c), hi)
    requires FlatInBoth(a, b, c, lo) || FlatInBoth(a, b, c, hi)
    ensures Between(a, b, c)
  {
    hide Neighbours, Levels, FirstLeast, FirstGreatest, IsBrightest, IsDarkest, ManySiblings, Flat, FlatInBoth;
    FirstsAt(a, b, c, lo);
    FirstsAt(a, b, c, hi);
  }

  lemma {:induction false} BetweenGives(a: Image, b: Image, c: Point) returns (lo: nat, hi: nat)
    requires a.Valid() && b.Valid() && a.bounds == b.bounds && a.bounds.Contains(c.x, c.y) && Between(a, b, c)
    ensures lo < |Levels(a, c)| && hi < |Levels(a, c)|
    ensures FirstLeast(Levels(a, c), lo) && FirstGreatest(Levels(a, c), hi)
    ensures FlatInBoth(a, b, c, lo) || FlatInBoth(a, b, c, hi)
  {
    hide Neighbours, Levels, FirstLeast, FirstGreatest, IsBrightest, IsDarkest, ManySiblings, Flat, FlatInBoth;
    var p, q :| IsBrightest(a, c, p) && IsDarkest(a, c, q) && (Flat(a, b, p) || Flat(a, b, q));
    BrightestIsAround(a, c, p, q);
    lo := IndexOf(a, c, p);
    hi := IndexOf(a, c, q);
    FirstsAt(a, b, c, lo);
    FirstsAt(a, b, c, hi);
  }

  /**
  Anti-aliased: at most two neighbours as bright as the pixel, or one on the border, some brighter and
  some darker, and the first brightest or the first darkest in a flat area of both images.
  */
  lemma {:induction false} AntiAliasedMeans(a: Image, b: Image, c: Point)
    requires a.Valid() && b.Valid() && a.bounds == b.bounds && a.bounds.Contains(c.x, c.y)
    ensures AntiAliased(a, b, c) <==> |LevelAround(a, c)| + BorderBonus(a.bounds, c) <= 2 && Between(a, b, c)
  {
    hide Neighbours, Levels, LevelAround, BorderBonus, FirstLeast, FirstGreatest, FlatInBoth, Between;
    LevelCount(a, c);
    var ds := Levels(a, c);
    if Between(a, b, c) {
      var lo, hi := BetweenGives(a, b, c);
    }
    if AntiAliased(a, b, c) {
      var lo, hi :| 0 <= lo < |ds| && 0 <= hi < |ds| && FirstLeast(ds, lo) && FirstGreatest(ds, hi)
        && (FlatInBoth(a, b, c, lo) || FlatInBoth(a, b, c, hi));
      BetweenFrom(a, b, c, lo, hi);
    }
  }

  lemma {:induction false} BrightestIsAround(img: Image, c: Point, p: Point, q: Point)
    requires img.Valid() && img.bounds.Contains(c.x, c.y) && IsBrightest(img, c, p) && IsDarkest(img, c, q)
    ensures IsAround(img.bounds, c, p) && IsAround(img.bounds, c, q)
  {
  }

  // ---------- the count ----------

  /** The differing points above a row, and those of the row left of a column. */
  ghost function DifferingTo(a: Image, b: Image, o: Options, x: int, y: int): set<Point>
    requires a.Valid() && b.Valid() && a.bounds == b.bounds
  {
    var r := a.bounds;
    set u, v |
      && r.minX <= u < r.maxX && r.minY <= v < r.maxY && (v < y || (v == y && u < x))
      && Differs(a, b, o, Point(u, v))
      :: Point(u, v)
  }

  /** All the points of two images that differ. */
  ghost function Differing(a: Image, b: Image, o: Options): set<Point>
    requires a.Valid() && b.Valid() && a.bounds == b.bounds
  {
    set u, v | a.bounds.minX <= u < a.bounds.maxX && a.bounds.minY <= v < a.bounds.maxY && Differs(a, b, o, Point(u, v))
      :: Point(u, v)
  }

  lemma {:induction false} OnePointOn(a: Image, b: Image, o: Options, x: int, y: int)
    requires a.Valid() && b.Valid() && a.bounds == b.bounds && a.bounds.Contains(x, y)
    ensures
      |DifferingTo(a, b, o, x + 1, y)| == |DifferingTo(a, b, o, x, y)| + if Differs(a, b, o, Point(x, y)) then 1 else 0
  {
    hide Differs;
    var before, after, added := DifferingTo(a, b, o, x, y), DifferingTo(a, b, o, x + 1, y), Point(x, y);
    forall p: Point
      ensures p in after <==> p in before || (p == added && Differs(a, b, o, added))
    {
      assert p == Point(p.x, p.y);
    }
    assert added !in before;
    OneMore(before, after, added, Differs(a, b, o, added));
  }

  lemma {:induction false} RowCount(a: Image, b: Image, o: Options, k: nat, y: int)
    requires a.Valid() && b.Valid() && a.bounds == b.bounds && a.bounds.minY <= y < a.bounds.maxY && k <= a.bounds.Dx()
    ensures |DifferingTo(a, b, o, a.bounds.minX + k, y)|
      == |DifferingTo(a, b, o, a.bounds.minX, y)| + multiset(Marks(a, b, o, y)[..k])[true]
  {
    hide Differs, Marks, DifferingTo;
    if k > 0 {
      RowCount(a, b, o, k - 1, y);
      OnePointOn(a, b, o, a.bounds.minX + k - 1, y);
      MarkAt(a, b, o, y, k - 1);
      CountOneMore(Marks(a, b, o, y), k - 1, true);
    }
  }

  lemma {:induction false} RowsMeet(a: Image, b: Image, o: Options, y: int)
    requires a.Valid() && b.Valid() && a.bounds == b.bounds
    ensures DifferingTo(a, b, o, a.bounds.maxX, y) == DifferingTo(a, b, o, a.bounds.minX, y + 1)
    ensures DifferingTo(a, b, o, a.bounds.minX, a.bounds.minY) == {}
    ensures DifferingTo(a, b, o, a.bounds.minX, a.bounds.maxY) == Differing(a, b, o)
  {
    hide Differs;
  }

  lemma {:induction false} AboveIsCardinality(a: Image, b: Image, o: Options, y: int)
    requires a.Valid() && b.Valid() && a.bounds == b.bounds && a.bounds.minY <= y <= a.bounds.maxY
    ensures CountAbove(a, b, o, y) == |DifferingTo(a, b, o, a.bounds.minX, y)|
    decreases y - a.bounds.minY
  {
    hide Differs, Marks, DifferingTo;
    RowsMeet(a, b, o, y - 1);
    if y > a.bounds.minY {
      AboveIsCardinality(a, b, o, y - 1);
      var m := Marks(a, b, o, y - 1);
      RowCount(a, b, o, |m|, y - 1);
      assert m[..|m|] == m;
    }
  }

  /** The count is the number of points that differ. */
  lemma {:induction false} CountIsDiffering(a: Image, b: Image, o: Options)
    requires a.Valid() && b.Valid() && a.bounds == b.bounds
    ensures DiffCount(a, b, o) == |Differing(a, b, o)|
  {
    hide Differs, CountAbove, DifferingTo;
    AboveIsCardinality(a, b, o, a.bounds.maxY);
    RowsMeet(a, b, o, a.bounds.maxY);
  }

  /** Which points are counted: those beyond the threshold that are anti-aliased in neither image, or all of them. */
  lemma {:induction false} CountedPoints(a: Image, b: Image, o: Options, p: Point)
    requires a.Valid() && b.Valid() && a.bounds == b.bounds && a.bounds.Contains(p.x, p.y)
    ensures p in Differing(a, b, o)
      <==> Exceeds(a, b, o, p) && (o.includeAA || (!AntiAliased(a, b, p) && !AntiAliased(b, a, p)))
  {
    hide AntiAliased, Exceeds;
    assert p == Point(p.x, p.y);
  }

  // ---------- the threshold ----------

  const ONE: Rect := Rect(0, 0, 1, 1)

  /** An image of one pixel. */
  lemma {:induction false} OnePixel(e: Encoding, s: Bytes)
    requires |s| == Width(e)
    ensures Encoded(e, s, |s|, ONE).Valid() && Pixel(Encoded(e, s, |s|, ONE), 0, 0) == Decode(e, s)
  {
    hide Decode;
    var img := Encoded(e, s, |s|, ONE);
    assert img.PixOffset(0, 0) == 0 * |s| + 0 * |s| == 0;
    assert s[0..|s|] == s;
  }

  lemma {:induction false} FullThreshold(o: Options)
    requires o.threshold == 1.0
    ensures MaxDelta(o) == 35215.0
  {
  }

  lemma {:induction false} RedAndCyan()
    ensures Decode(RGBA, [255, 0, 0, 255]) == Rgba(0xffff, 0, 0, 0xffff)
    ensures Decode(RGBA, [0, 255, 255, 255]) == Rgba(0, 0xffff, 0xffff, 0xffff)
    ensures Decode(RGBA64, [255, 0, 0, 0, 0, 0, 255, 0]) == Rgba(OPAQUE, 0, 0, OPAQUE)
    ensures Decode(RGBA64, [0, 0, 255, 0, 255, 0, 255, 0]) == Rgba(0, OPAQUE, OPAQUE, OPAQUE)
  {
  }

  /** At a threshold of 1, full red against full cyan is counted ... */
  lemma {:induction false} RedAgainstCyanCounts(red: Bytes, cyan: Bytes, o: Options)
    requires o.threshold == 1.0 && o.includeAA && red == [255, 0, 0, 255] && cyan == [0, 255, 255, 255]
    ensures
      var a, b := Encoded(RGBA, red, 4, ONE), Encoded(RGBA, cyan, 4, ONE);
      a.Valid() && b.Valid() && DiffCount(a, b, o) == 1
  {
    hide ColorDelta, CountAbove, Pixel, Image.Valid, DiffCount, Decode, MaxDelta;
    RedAgainstCyan();
    RedAndCyan();
    FullThreshold(o);
    OnePixel(RGBA, red);
    OnePixel(RGBA, cyan);
    var a, b, p := Encoded(RGBA, red, 4, ONE), Encoded(RGBA, cyan, 4, ONE), Point(0, 0);
    CountIsDiffering(a, b, o);
    forall q: Point
      ensures q in Differing(a, b, o) <==> q in {} || (q == p && true)
    {
      assert q == Point(q.x, q.y);
    }
    OneMore({}, Differing(a, b, o), p, true);
  }

  /** ... and a red against a cyan of one 256th less is not. */
  lemma {:induction false} RedAgainstCyanPasses(red: Bytes, cyan: Bytes, o: Options)
    requires o.threshold == 1.0 && o.includeAA
    requires red == [255, 0, 0, 0, 0, 0, 255, 0] && cyan == [0, 0, 255, 0, 255, 0, 255, 0]
    ensures
      var a, b := Encoded(RGBA64, red, 8, ONE), Encoded(RGBA64, cyan, 8, ONE);
      a.Valid() && b.Valid() && DiffCount(a, b, o) == 0
  {
    hide ColorDelta, CountAbove, Pixel, Image.Valid, DiffCount, Decode, MaxDelta;
    RedAgainstCyan();
    RedAndCyan();
    FullThreshold(o);
    OnePixel(RGBA64, red);
    OnePixel(RGBA64, cyan);
    var a, b, p := Encoded(RGBA64, red, 8, ONE), Encoded(RGBA64, cyan, 8, ONE), Point(0, 0);
    CountIsDiffering(a, b, o);
    forall q: Point
      ensures q !in Differing(a, b, o)
    {
      assert q in Differing(a, b, o) ==> q == p;
    }
    assert Differing(a, b, o) == {};
  }

  /** The largest distance that passes goes with the square of the threshold. */
  lemma {:induction false} ThresholdIsSquared(o: Options, k: real)
    ensures MaxDelta(o.(threshold := k * o.threshold)) == k * k * MaxDelta(o)
  {
    var t := o.threshold;
    assert (k * t) * (k * t) == (k * k) * (t * t);
    assert MaxDelta(o) == 35215.0 * (t * t);
    assert MaxDelta(o.(threshold := k * t)) == 35215.0 * ((k * t) * (k * t));
  }
}
