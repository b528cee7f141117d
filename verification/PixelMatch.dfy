/**
pixelmatch/pixelmatch.go: the number of differing pixels.  The count is defined on
whole images; the methods compute it through the row windows.
*/
module PixelMatch {
  import opened Pixels
  import opened LineReader

  datatype Point = Point(x: int, y: int)

  // ---------- neighbourhoods ----------

  function Max(a: int, b: int): int { if a < b then b else a }

  function Min(a: int, b: int): int { if a < b then a else b }

  function Left(r: Rect, x: int): int { Max(x - 1, r.minX) }

  function Right(r: Rect, x: int): int { Min(x + 1, r.maxX - 1) }

  function Top(r: Rect, y: int): int { Max(y - 1, r.minY) }

  function Bottom(r: Rect, y: int): int { Min(y + 1, r.maxY - 1) }

  /** A pixel on the border of the image starts with one equal neighbour to its credit. */
  function BorderBonus(r: Rect, c: Point): nat {
    if c.x == Left(r, c.x) || c.x == Right(r, c.x) || c.y == Top(r, c.y) || c.y == Bottom(r, c.y) then 1 else 0
  }

  /** The neighbours of `c` in column `x`, from the top of its neighbourhood down to row `y` exclusive. */
  function ColumnTo(r: Rect, c: Point, x: int, y: int): seq<Point>
    decreases y - Top(r, c.y)
  {
    if y <= Top(r, c.y) then []
    else ColumnTo(r, c, x, y - 1) + (if x == c.x && y - 1 == c.y then [] else [Point(x, y - 1)])
  }

  /** The neighbours in the columns left of `x`, in the order they are visited. */
  function ColumnsTo(r: Rect, c: Point, x: int): seq<Point>
    decreases x - Left(r, c.x)
  {
    if x <= Left(r, c.x) then []
    else ColumnsTo(r, c, x - 1) + ColumnTo(r, c, x - 1, Bottom(r, c.y) + 1)
  }

  function Neighbours(r: Rect, c: Point): seq<Point> { ColumnsTo(r, c, Right(r, c.x) + 1) }

  /** `Neighbours` lists each of the up to eight pixels around `c`, and nothing else. */
  lemma {:induction false} NeighboursAreAround(r: Rect, c: Point, p: Point)
    requires r.Contains(c.x, c.y)
    ensures p in Neighbours(r, c)
      <==> r.Contains(p.x, p.y) && p != c && -1 <= p.x - c.x <= 1 && -1 <= p.y - c.y <= 1
  {
    InColumns(r, c, Right(r, c.x) + 1, p);
  }

  lemma {:induction false} InColumn(r: Rect, c: Point, x: int, y: int, p: Point)
    ensures p in ColumnTo(r, c, x, y) <==> p.x == x && Top(r, c.y) <= p.y < y && p != c
    decreases y - Top(r, c.y)
  {
    if y > Top(r, c.y) {
      InColumn(r, c, x, y - 1, p);
    }
  }

  lemma {:induction false} InColumns(r: Rect, c: Point, x: int, p: Point)
    ensures p in ColumnsTo(r, c, x)
      <==> Left(r, c.x) <= p.x < x && Top(r, c.y) <= p.y <= Bottom(r, c.y) && p != c
    decreases x - Left(r, c.x)
  {
    hide ColumnTo;
    if x > Left(r, c.x) {
      InColumns(r, c, x - 1, p);
      InColumn(r, c, x - 1, Bottom(r, c.y) + 1, p);
    }
  }

  /** How many neighbours are visited before (x, y). */
  function Before(r: Rect, c: Point, x: int, y: int): nat { |ColumnsTo(r, c, x) + ColumnTo(r, c, x, y)| }

  lemma {:induction false} ColumnGrows(r: Rect, c: Point, x: int, y: int, z: int)
    requires y <= z
    ensures ColumnTo(r, c, x, y) <= ColumnTo(r, c, x, z)
    decreases z - y
  {
    if y < z {
      ColumnGrows(r, c, x, y, z - 1);
    }
  }

  lemma {:induction false} ColumnsGrow(r: Rect, c: Point, x: int, z: int)
    requires x <= z
    ensures ColumnsTo(r, c, x) <= ColumnsTo(r, c, z)
    decreases z - x
  {
    if x < z {
      ColumnsGrow(r, c, x, z - 1);
    }
  }

  /** The pixel visited at (x, y) is the next of the list, but for the centre. */
  lemma {:induction false} VisitOne(r: Rect, c: Point, x: int, y: int)
    requires Left(r, c.x) <= x <= Right(r, c.x) && Top(r, c.y) <= y <= Bottom(r, c.y)
    ensures
      var k, all := Before(r, c, x, y), Neighbours(r, c);
      if Point(x, y) == c then Before(r, c, x, y + 1) == k
      else k < |all| && all[k] == Point(x, y) && Before(r, c, x, y + 1) == k + 1
  {
    var all, k := Neighbours(r, c), Before(r, c, x, y);
    var visited := ColumnsTo(r, c, x) + ColumnTo(r, c, x, y + 1);
    assert visited <= all by {
      ColumnGrows(r, c, x, y + 1, Bottom(r, c.y) + 1);
      ColumnsGrow(r, c, x + 1, Right(r, c.x) + 1);
      assert visited <= ColumnsTo(r, c, x + 1);
    }
    assert Point(x, y) != c ==> visited[k] == Point(x, y);
  }

  /** Starting a column, ending it, and ending the last. */
  lemma {:induction false} VisitColumn(r: Rect, c: Point, x: int)
    requires r.Contains(c.x, c.y) && Left(r, c.x) <= x <= Right(r, c.x)
    ensures Before(r, c, x, Bottom(r, c.y) + 1) == Before(r, c, x + 1, Top(r, c.y))
    ensures Before(r, c, Left(r, c.x), Top(r, c.y)) == 0
    ensures Before(r, c, Right(r, c.x) + 1, Top(r, c.y)) == |Neighbours(r, c)|
  {
  }

  // ---------- siblings ----------

  function PixelAt(img: Image, p: Point): Rgba
    requires img.Valid() && img.bounds.Contains(p.x, p.y)
  {
    Pixel(img, p.x, p.y)
  }

  /** The colours around a pixel, in the order they are visited. */
  function Colours(img: Image, c: Point): (cs: seq<Rgba>)
    requires img.Valid() && img.bounds.Contains(c.x, c.y)
    ensures |cs| == |Neighbours(img.bounds, c)|
  {
    var ps := Neighbours(img.bounds, c);
    seq(|ps|, i requires 0 <= i < |ps| => NeighboursAreAround(img.bounds, c, ps[i]); PixelAt(img, ps[i]))
  }

  /** Three or more neighbours of the same colour, the border counting as one. */
  predicate ManySiblings(img: Image, c: Point)
    requires img.Valid() && img.bounds.Contains(c.x, c.y)
  {
    BorderBonus(img.bounds, c) + multiset(Colours(img, c))[PixelAt(img, c)] > 2
  }

  /** The colour visited at (x, y) is the next of the list. */
  lemma {:induction false} NextColour(img: Image, c: Point, x: int, y: int)
    requires img.Valid() && img.bounds.Contains(c.x, c.y) && Point(x, y) != c
    requires Left(img.bounds, c.x) <= x <= Right(img.bounds, c.x)
    requires Top(img.bounds, c.y) <= y <= Bottom(img.bounds, c.y)
    ensures
      var k := Before(img.bounds, c, x, y);
      && k < |Colours(img, c)| && Before(img.bounds, c, x, y + 1) == k + 1
      && Colours(img, c)[k] == Pixel(img, x, y)
  {
    hide Before, Neighbours;
    VisitOne(img.bounds, c, x, y);
  }

  lemma {:induction false} CountGrows<T>(s: seq<T>, k: nat, v: T)
    requires k <= |s|
    ensures multiset(s[..k])[v] <= multiset(s)[v]
  {
    assert s == s[..k] + s[k..];
  }

  lemma {:induction false} CountOneMore<T>(s: seq<T>, k: nat, v: T)
    requires k < |s|
    ensures multiset(s[..k + 1])[v] == multiset(s[..k])[v] + (if s[k] == v then 1 else 0)
  {
    assert s[..k + 1] == s[..k] + [s[k]];
  }

  // ---------- anti-aliasing ----------

  function Differences(c: Rgba, cs: seq<Rgba>): (ds: seq<real>)
    ensures |ds| == |cs| && forall i :: 0 <= i < |cs| ==> ds[i] == YDelta(c, cs[i])
  {
    seq(|cs|, i requires 0 <= i < |cs| => YDelta(c, cs[i]))
  }

  /** How much darker each neighbour is than the pixel. */
  function Levels(img: Image, c: Point): (ds: seq<real>)
    requires img.Valid() && img.bounds.Contains(c.x, c.y)
    ensures |ds| == |Neighbours(img.bounds, c)|
  {
    Differences(PixelAt(img, c), Colours(img, c))
  }

  /** The first of the least values, which is below zero. */
  predicate FirstLeast(ds: seq<real>, k: int) {
    && 0 <= k < |ds| && ds[k] < 0.0
    && (forall j :: 0 <= j < |ds| ==> ds[k] <= ds[j])
    && (forall j :: 0 <= j < k ==> ds[k] < ds[j])
  }

  /** The first of the greatest values, which is above zero. */
  predicate FirstGreatest(ds: seq<real>, k: int) {
    && 0 <= k < |ds| && ds[k] > 0.0
    && (forall j :: 0 <= j < |ds| ==> ds[k] >= ds[j])
    && (forall j :: 0 <= j < k ==> ds[k] > ds[j])
  }

  lemma {:induction false} NeighbourInside(img: Image, c: Point, k: int)
    requires img.bounds.Contains(c.x, c.y) && 0 <= k < |Neighbours(img.bounds, c)|
    ensures
      var p := Neighbours(img.bounds, c)[k];
      img.bounds.Contains(p.x, p.y) && -1 <= p.x - c.x <= 1 && -1 <= p.y - c.y <= 1
  {
    NeighboursAreAround(img.bounds, c, Neighbours(img.bounds, c)[k]);
  }

  /** The `k`-th neighbour of `c` is in a flat area of both images. */
  predicate FlatInBoth(a: Image, b: Image, c: Point, k: int)
    requires a.Valid() && b.Valid() && a.bounds == b.bounds && a.bounds.Contains(c.x, c.y)
    requires 0 <= k < |Neighbours(a.bounds, c)|
  {
    NeighbourInside(a, c, k);
    var p := Neighbours(a.bounds, c)[k];
    ManySiblings(a, p) && ManySiblings(b, p)
  }

  /**
  At most two neighbours as bright as the pixel (the border counting as one), some
  neighbour darker and some brighter, and the first darkest or the first brightest of
  them part of a flat area in both images.
  */
  predicate AntiAliased(a: Image, b: Image, c: Point)
    requires a.Valid() && b.Valid() && a.bounds == b.bounds && a.bounds.Contains(c.x, c.y)
  {
    var ds := Levels(a, c);
    && BorderBonus(a.bounds, c) + multiset(ds)[0.0] <= 2
    && exists lo, hi :: 0 <= lo < |ds| && 0 <= hi < |ds| && FirstLeast(ds, lo) && FirstGreatest(ds, hi)
         && (FlatInBoth(a, b, c, lo) || FlatInBoth(a, b, c, hi))
  }

  // ---------- the count ----------

  datatype Options = Options(threshold: real, includeAA: bool)

  function MaxDelta(o: Options): real { 35215.0 * o.threshold * o.threshold }

  predicate Exceeds(a: Image, b: Image, o: Options, c: Point)
    requires a.Valid() && b.Valid() && a.bounds == b.bounds && a.bounds.Contains(c.x, c.y)
  {
    Abs(ColorDelta(PixelAt(a, c), PixelAt(b, c))) > MaxDelta(o)
  }

  /** No pixel is far enough apart for the anti-alias test to be made. */
  ghost predicate NoneExceeds(a: Image, b: Image, o: Options)
    requires a.Valid() && b.Valid()
  {
    a.bounds == b.bounds ==> forall x, y :: a.bounds.Contains(x, y) ==> !Exceeds(a, b, o, Point(x, y))
  }

  predicate Differs(a: Image, b: Image, o: Options, c: Point)
    requires a.Valid() && b.Valid() && a.bounds == b.bounds && a.bounds.Contains(c.x, c.y)
  {
    && Exceeds(a, b, o, c)
    && (o.includeAA || !(AntiAliased(a, b, c) || AntiAliased(b, a, c)))
  }

  /** Which pixels of a row differ. */
  function Marks(a: Image, b: Image, o: Options, y: int): (m: seq<bool>)
    requires a.Valid() && b.Valid() && a.bounds == b.bounds && a.bounds.minY <= y < a.bounds.maxY
    ensures |m| == a.bounds.Dx()
  {
    seq(a.bounds.Dx(), i requires 0 <= i < a.bounds.Dx() => Differs(a, b, o, Point(a.bounds.minX + i, y)))
  }

  lemma {:induction false} MarkAt(a: Image, b: Image, o: Options, y: int, i: int)
    requires a.Valid() && b.Valid() && a.bounds == b.bounds && a.bounds.minY <= y < a.bounds.maxY
    requires 0 <= i < a.bounds.Dx()
    ensures Marks(a, b, o, y)[i] == Differs(a, b, o, Point(a.bounds.minX + i, y))
  {
    hide Differs;
  }

  /** The differing pixels above row `y`. */
  function CountAbove(a: Image, b: Image, o: Options, y: int): nat
    requires a.Valid() && b.Valid() && a.bounds == b.bounds && a.bounds.minY <= y <= a.bounds.maxY
    decreases y - a.bounds.minY
  {
    if y == a.bounds.minY then 0
    else CountAbove(a, b, o, y - 1) + multiset(Marks(a, b, o, y - 1))[true]
  }

  /** The differing pixels of two images of equal bounds; empty images have none. */
  function DiffCount(a: Image, b: Image, o: Options): nat
    requires a.Valid() && b.Valid() && a.bounds.Eq(b.bounds)
  {
    if a.bounds == b.bounds then CountAbove(a, b, o, a.bounds.maxY) else 0
  }

  // ---------- what the count means ----------

  lemma {:induction false} DiffersSymmetric(a: Image, b: Image, o: Options, c: Point)
    requires a.Valid() && b.Valid() && a.bounds == b.bounds && a.bounds.Contains(c.x, c.y)
    ensures Differs(a, b, o, c) == Differs(b, a, o, c)
  {
    DeltaIsSymmetric(PixelAt(a, c), PixelAt(b, c));
  }

  lemma {:induction false} MarksSymmetric(a: Image, b: Image, o: Options, y: int)
    requires a.Valid() && b.Valid() && a.bounds == b.bounds && a.bounds.minY <= y < a.bounds.maxY
    ensures Marks(a, b, o, y) == Marks(b, a, o, y)
  {
    hide Differs, Marks;
    var m, n := Marks(a, b, o, y), Marks(b, a, o, y);
    forall i | 0 <= i < |m|
      ensures m[i] == n[i]
    {
      DiffersSymmetric(a, b, o, Point(a.bounds.minX + i, y));
      MarkAt(a, b, o, y, i);
      MarkAt(b, a, o, y, i);
    }
  }

  lemma {:induction false} AboveSymmetric(a: Image, b: Image, o: Options, y: int)
    requires a.Valid() && b.Valid() && a.bounds == b.bounds && a.bounds.minY <= y <= a.bounds.maxY
    ensures CountAbove(a, b, o, y) == CountAbove(b, a, o, y)
    decreases y - a.bounds.minY
  {
    hide Marks, Differs;
    if y > a.bounds.minY {
      AboveSymmetric(a, b, o, y - 1);
      MarksSymmetric(a, b, o, y - 1);
    }
  }

  /** The order of the images does not matter. */
  lemma {:induction false} DiffIsSymmetric(a: Image, b: Image, o: Options)
    requires a.Valid() && b.Valid() && a.bounds.Eq(b.bounds)
    ensures DiffCount(a, b, o) == DiffCount(b, a, o)
  {
    if a.bounds == b.bounds {
      AboveSymmetric(a, b, o, a.bounds.maxY);
    }
  }

  /** Counting marks: at most all of them, fewer when fewer are set, none when none is. */
  lemma {:induction false} CountMarks(m: seq<bool>, n: seq<bool>)
    requires |m| == |n| && forall i :: 0 <= i < |m| ==> m[i] ==> n[i]
    ensures multiset(m)[true] <= multiset(n)[true] <= |n|
  {
    if m != [] {
      var k := |m| - 1;
      CountMarks(m[..k], n[..k]);
      assert m == m[..k] + [m[k]] && n == n[..k] + [n[k]];
    }
  }

  lemma {:induction false} TimesOneMore(w: int, h: int)
    ensures w * (h + 1) == w * h + w
  {
  }

  lemma {:induction false} AboveBounded(a: Image, b: Image, o: Options, y: int)
    requires a.Valid() && b.Valid() && a.bounds == b.bounds && a.bounds.minY <= y <= a.bounds.maxY
    ensures CountAbove(a, b, o, y) <= a.bounds.Dx() * (y - a.bounds.minY)
    decreases y - a.bounds.minY
  {
    hide Marks, Differs;
    if y > a.bounds.minY {
      AboveBounded(a, b, o, y - 1);
      var m := Marks(a, b, o, y - 1);
      CountMarks(m, m);
      TimesOneMore(a.bounds.Dx(), y - 1 - a.bounds.minY);
    }
  }

  /** At most every pixel differs. */
  lemma {:induction false} DiffIsBounded(a: Image, b: Image, o: Options)
    requires a.Valid() && b.Valid() && a.bounds.Eq(b.bounds)
    ensures DiffCount(a, b, o) <= a.bounds.Dx() * a.bounds.Dy()
  {
    if a.bounds == b.bounds {
      AboveBounded(a, b, o, a.bounds.maxY);
    }
  }

  lemma {:induction false} MaxDeltaGrows(o: Options, p: Options)
    requires 0.0 <= o.threshold <= p.threshold
    ensures MaxDelta(o) <= MaxDelta(p)
  {
    var s, t := o.threshold, p.threshold;
    assert s * s <= s * t <= t * t;
    assert MaxDelta(o) == 35215.0 * (s * s) && MaxDelta(p) == 35215.0 * (t * t);
  }

  lemma {:induction false} MarksShrink(a: Image, b: Image, o: Options, p: Options, y: int)
    requires a.Valid() && b.Valid() && a.bounds == b.bounds && a.bounds.minY <= y < a.bounds.maxY
    requires MaxDelta(o) <= MaxDelta(p) && o.includeAA == p.includeAA
    ensures multiset(Marks(a, b, p, y))[true] <= multiset(Marks(a, b, o, y))[true]
  {
    hide Marks, AntiAliased, PixelAt, ColorDelta, MaxDelta;
    var m, n := Marks(a, b, p, y), Marks(a, b, o, y);
    forall i | 0 <= i < |m|
      ensures m[i] ==> n[i]
    {
      MarkAt(a, b, p, y, i);
      MarkAt(a, b, o, y, i);
    }
    CountMarks(m, n);
  }

  lemma {:induction false} AboveShrinks(a: Image, b: Image, o: Options, p: Options, y: int)
    requires a.Valid() && b.Valid() && a.bounds == b.bounds && a.bounds.minY <= y <= a.bounds.maxY
    requires MaxDelta(o) <= MaxDelta(p) && o.includeAA == p.includeAA
    ensures CountAbove(a, b, p, y) <= CountAbove(a, b, o, y)
    decreases y - a.bounds.minY
  {
    hide Marks, Differs, MaxDelta;
    if y > a.bounds.minY {
      AboveShrinks(a, b, o, p, y - 1);
      MarksShrink(a, b, o, p, y - 1);
    }
  }

  /** Raising a non-negative threshold never raises the count. */
  lemma {:induction false} DiffShrinksWithThreshold(a: Image, b: Image, o: Options, p: Options)
    requires a.Valid() && b.Valid() && a.bounds.Eq(b.bounds)
    requires 0.0 <= o.threshold <= p.threshold && o.includeAA == p.includeAA
    ensures DiffCount(a, b, p) <= DiffCount(a, b, o)
  {
    MaxDeltaGrows(o, p);
    if a.bounds == b.bounds {
      AboveShrinks(a, b, o, p, a.bounds.maxY);
    }
  }

  lemma {:induction false} MaxDeltaNotNegative(o: Options)
    ensures MaxDelta(o) >= 0.0
  {
    var t := o.threshold;
    assert t * t >= 0.0;
    assert MaxDelta(o) == 35215.0 * (t * t);
  }

  lemma {:induction false} MarksSame(a: Image, b: Image, o: Options, y: int)
    requires a.Valid() && b.Valid() && a.bounds == b.bounds && a.bounds.minY <= y < a.bounds.maxY
    requires Identical(a, b)
    ensures multiset(Marks(a, b, o, y))[true] == 0
  {
    hide Marks, AntiAliased, MaxDelta, Identical, Comparable;
    var m := Marks(a, b, o, y);
    forall i | 0 <= i < |m|
      ensures !m[i]
    {
      MarkAt(a, b, o, y, i);
      IdenticalPixels(a, b, a.bounds.minX + i, y);
      MaxDeltaNotNegative(o);
    }
  }

  lemma {:induction false} AboveSame(a: Image, b: Image, o: Options, y: int)
    requires a.Valid() && b.Valid() && a.bounds == b.bounds && a.bounds.minY <= y <= a.bounds.maxY
    requires Identical(a, b)
    ensures CountAbove(a, b, o, y) == 0
    decreases y - a.bounds.minY
  {
    hide Marks, Differs, Identical, Comparable;
    if y > a.bounds.minY {
      AboveSame(a, b, o, y - 1);
      MarksSame(a, b, o, y - 1);
    }
  }

  /** Where the shortcut fires, the full loop would count nothing, in every encoding and for every threshold. */
  lemma {:induction false} ShortcutIsSound(a: Image, b: Image, o: Options)
    requires a.Valid() && b.Valid() && a.bounds.Eq(b.bounds) && Identical(a, b)
    ensures DiffCount(a, b, o) == 0
  {
    if a.bounds == b.bounds {
      AboveSame(a, b, o, a.bounds.maxY);
    }
  }

  // ---------- the windowed computation ----------

  /** A reader in the middle of an image that starts at column 0. */
  ghost predicate Reading(r: ImageLineReader, y: int)
    reads r, r.lines
  {
    && r.Valid() && r.image.Valid() && r.image.bounds == r.rect && r.width == r.rect.Dx()
    && r.rect.minX == 0 && r.rect.minY < r.y && r.y == y + 1
  }

  /** The inner loop of `HasManySiblings`; it stops at the third equal neighbour. */
  method SiblingsInColumn(img: ImageLineReader, c: Point, x: int, a: Rgba, zeroes: nat, ghost row: int,
      ghost bonus: nat)
    returns (z: nat)
    requires Reading(img, row) && img.rect.Contains(c.x, c.y) && row - 1 <= c.y <= row + 1
    requires Left(img.rect, c.x) <= x <= Right(img.rect, c.x)
    requires Before(img.rect, c, x, Top(img.rect, c.y)) <= |Colours(img.image, c)|
    requires zeroes == bonus + multiset(Colours(img.image, c)[..Before(img.rect, c, x, Top(img.rect, c.y))])[a] <= 2
    ensures z > 2 ==> bonus + multiset(Colours(img.image, c))[a] > 2
    ensures z <= 2 ==>
      var n := Before(img.rect, c, x, Bottom(img.rect, c.y) + 1);
      n <= |Colours(img.image, c)| && z == bonus + multiset(Colours(img.image, c)[..n])[a]
  {
    hide Before, Neighbours, Pixel, Colours, ImageLineReader.Valid;
    ghost var all := Colours(img.image, c);
    z := zeroes;
    for y := Top(img.rect, c.y) to Bottom(img.rect, c.y) + 1
      invariant Before(img.rect, c, x, y) <= |all|
      invariant z == bonus + multiset(all[..Before(img.rect, c, x, y)])[a] <= 2
    {
      if x == c.x && y == c.y {
        VisitOne(img.rect, c, x, y);
        continue;
      }
      ghost var k := Before(img.rect, c, x, y);
      NextColour(img.image, c, x, y);
      CountOneMore(all, k, a);
      if a == img.At(x, y) {
        z := z + 1;
      }
      if z > 2 {
        CountGrows(all, k + 1, a);
        return;
      }
    }
  }

  lemma {:induction false} NoneVisited<T>(all: seq<T>, v: T)
    ensures multiset(all[..0])[v] == 0 && multiset(all[..|all|])[v] == multiset(all)[v]
  {
    assert all[..|all|] == all;
  }

  /** Every read is of a row the window holds. */
  method HasManySiblings(img: ImageLineReader, x1: int, y1: int, ghost row: int) returns (many: bool)
    requires Reading(img, row) && img.rect.Contains(x1, y1) && row - 1 <= y1 <= row + 1
    ensures many == ManySiblings(img.image, Point(x1, y1))
  {
    hide Before, Neighbours, Pixel, Colours, ImageLineReader.Valid;
    var rect := img.rect;
    var x0, y0 := Max(x1 - 1, rect.minX), Max(y1 - 1, rect.minY);
    var x2, y2 := Min(x1 + 1, rect.maxX - 1), Min(y1 + 1, rect.maxY - 1);
    var zeroes := 0;
    if x1 == x0 || x1 == x2 || y1 == y0 || y1 == y2 {
      zeroes := 1;
    }
    var a := img.At(x1, y1);
    var c := Point(x1, y1);
    ghost var bonus, all := zeroes, Colours(img.image, c);
    NoneVisited(all, a);
    VisitColumn(rect, c, x0);
    for x := x0 to x2 + 1
      invariant Before(rect, c, x, y0) <= |all|
      invariant zeroes == bonus + multiset(all[..Before(rect, c, x, y0)])[a] <= 2
    {
      VisitColumn(rect, c, x);
      zeroes := SiblingsInColumn(img, c, x, a, zeroes, row, bonus);
      if zeroes > 2 {
        return true;
      }
    }
    return false;
  }

  /** The extremes among the values seen so far; zero when there is none on that side. */
  ghost predicate LeastSoFar(ds: seq<real>, min: real, k: int) {
    if min == 0.0 then (forall j :: 0 <= j < |ds| ==> ds[j] >= 0.0) else FirstLeast(ds, k) && ds[k] == min
  }

  ghost predicate GreatestSoFar(ds: seq<real>, max: real, k: int) {
    if max == 0.0 then (forall j :: 0 <= j < |ds| ==> ds[j] <= 0.0) else FirstGreatest(ds, k) && ds[k] == max
  }

  lemma {:induction false} ExtremesOneMore(ds: seq<real>, n: nat, min: real, lo: int, max: real, hi: int)
    requires n < |ds| && min <= 0.0 <= max
    requires LeastSoFar(ds[..n], min, lo) && GreatestSoFar(ds[..n], max, hi)
    ensures
      if ds[n] < min then LeastSoFar(ds[..n + 1], ds[n], n) else LeastSoFar(ds[..n + 1], min, lo)
    ensures
      if ds[n] > max then GreatestSoFar(ds[..n + 1], ds[n], n) else GreatestSoFar(ds[..n + 1], max, hi)
  {
    assert ds[..n + 1] == ds[..n] + [ds[n]];
  }

  /** The variables of the two loops of `IsAntiAliased`, and where the extremes stand in the list. */
  datatype Survey = Survey(zeroes: nat, min: real, darkest: Point, max: real, brightest: Point)

  ghost predicate Surveyed(s: Survey, bonus: nat, ds: seq<real>, n: nat, ps: seq<Point>, lo: int, hi: int)
    requires n <= |ds| == |ps|
  {
    && s.zeroes == bonus + multiset(ds[..n])[0.0] && s.min <= 0.0 <= s.max
    && LeastSoFar(ds[..n], s.min, lo) && GreatestSoFar(ds[..n], s.max, hi)
    && (s.min < 0.0 ==> 0 <= lo < |ps| && ps[lo] == s.darkest)
    && (s.max > 0.0 ==> 0 <= hi < |ps| && ps[hi] == s.brightest)
  }

  lemma {:induction false} SurveyOneMore(s: Survey, bonus: nat, ds: seq<real>, n: nat, ps: seq<Point>, lo: int, hi: int)
    requires n < |ds| == |ps| && Surveyed(s, bonus, ds, n, ps, lo, hi)
    ensures
      var d, p := ds[n], ps[n];
      if d == 0.0 then Surveyed(s.(zeroes := s.zeroes + 1), bonus, ds, n + 1, ps, lo, hi)
      else if d < s.min then Surveyed(s.(min := d, darkest := p), bonus, ds, n + 1, ps, n, hi)
      else if d > s.max then Surveyed(s.(max := d, brightest := p), bonus, ds, n + 1, ps, lo, n)
      else Surveyed(s, bonus, ds, n + 1, ps, lo, hi)
  {
    CountOneMore(ds, n, 0.0);
    ExtremesOneMore(ds, n, s.min, lo, s.max, hi);
  }

  /** The inner loop of `IsAntiAliased`; it stops at the third equally bright neighbour. */
  method SurveyColumn(a: ImageLineReader, p: Point, x: int, c: Rgba, before: Survey, ghost bonus: nat,
      ghost lo0: int, ghost hi0: int)
    returns (s: Survey, ghost lo: int, ghost hi: int)
    requires Reading(a, p.y) && a.rect.Contains(p.x, p.y) && c == PixelAt(a.image, p)
    requires Left(a.rect, p.x) <= x <= Right(a.rect, p.x)
    requires Before(a.rect, p, x, Top(a.rect, p.y)) <= |Levels(a.image, p)| && before.zeroes <= 2
    requires
      var n := Before(a.rect, p, x, Top(a.rect, p.y));
      Surveyed(before, bonus, Levels(a.image, p), n, Neighbours(a.rect, p), lo0, hi0)
    ensures s.zeroes > 2 ==> bonus + multiset(Levels(a.image, p))[0.0] > 2
    ensures s.zeroes <= 2 ==>
      var n := Before(a.rect, p, x, Bottom(a.rect, p.y) + 1);
      n <= |Levels(a.image, p)| && Surveyed(s, bonus, Levels(a.image, p), n, Neighbours(a.rect, p), lo, hi)
  {
    hide Before, Neighbours, Pixel, YDelta, Colours, Surveyed, ImageLineReader.Valid;
    ghost var ps, ds := Neighbours(a.rect, p), Levels(a.image, p);
    s, lo, hi := before, lo0, hi0;
    for y := Top(a.rect, p.y) to Bottom(a.rect, p.y) + 1
      invariant Before(a.rect, p, x, y) <= |ds| && s.zeroes <= 2
      invariant Surveyed(s, bonus, ds, Before(a.rect, p, x, y), ps, lo, hi)
    {
      VisitOne(a.rect, p, x, y);
      if x == p.x && y == p.y {
        continue;
      }
      ghost var k := Before(a.rect, p, x, y);
      NextColour(a.image, p, x, y);
      var delta := YDelta(c, a.At(x, y));
      SurveyOneMore(s, bonus, ds, k, ps, lo, hi);
      if delta == 0.0 {
        s := s.(zeroes := s.zeroes + 1);
        if s.zeroes > 2 {
          ThirdZero(s, bonus, ds, k + 1, ps, lo, hi);
          return;
        }
      } else if delta < s.min {
        s, lo := s.(min := delta, darkest := Point(x, y)), k;
      } else if delta > s.max {
        s, hi := s.(max := delta, brightest := Point(x, y)), k;
      }
    }
  }

  lemma {:induction false} ThirdZero(s: Survey, bonus: nat, ds: seq<real>, n: nat, ps: seq<Point>, lo: int, hi: int)
    requires n <= |ds| == |ps| && Surveyed(s, bonus, ds, n, ps, lo, hi) && s.zeroes > 2
    ensures bonus + multiset(ds)[0.0] > 2
  {
    CountGrows(ds, n, 0.0);
  }

  lemma {:induction false} SurveyNone(bonus: nat, ds: seq<real>, ps: seq<Point>)
    requires |ds| == |ps|
    ensures Surveyed(Survey(bonus, 0.0, Point(0, 0), 0.0, Point(0, 0)), bonus, ds, 0, ps, 0, 0) && ds[..|ds|] == ds
  {
    assert ds[..0] == [];
  }

  method IsAntiAliased(a: ImageLineReader, b: ImageLineReader, x1: int, y1: int) returns (result: bool)
    requires Reading(a, y1) && Reading(b, y1) && a.rect == b.rect && a.rect.Contains(x1, y1)
    ensures result == AntiAliased(a.image, b.image, Point(x1, y1))
  {
    hide Before, Neighbours, Pixel, YDelta, ManySiblings, Colours, AntiAliased, ImageLineReader.Valid,
      Surveyed;
    var r, p := a.rect, Point(x1, y1);
    var x0, y0 := Max(x1 - 1, r.minX), Max(y1 - 1, r.minY);
    var x2, y2 := Min(x1 + 1, r.maxX - 1), Min(y1 + 1, r.maxY - 1);
    var zeroes := 0;
    if x1 == x0 || x1 == x2 || y1 == y0 || y1 == y2 {
      zeroes := 1;
    }
    var s := Survey(zeroes, 0.0, Point(0, 0), 0.0, Point(0, 0));
    var c := a.At(x1, y1);
    ghost var bonus, lo, hi := zeroes, 0, 0;
    ghost var ps, ds := Neighbours(r, p), Levels(a.image, p);
    SurveyNone(bonus, ds, ps);
    VisitColumn(r, p, x0);
    for x := x0 to x2 + 1
      invariant Before(r, p, x, y0) <= |ds| && s.zeroes <= 2
      invariant Surveyed(s, bonus, ds, Before(r, p, x, y0), ps, lo, hi)
    {
      VisitColumn(r, p, x);
      s, lo, hi := SurveyColumn(a, p, x, c, s, bonus, lo, hi);
      if s.zeroes > 2 {
        TooManyLevels(a.image, b.image, p);
        return false;
      }
    }
    result := Verdict(a, b, p, s, lo, hi);
  }

  lemma {:induction false} TooManyLevels(a: Image, b: Image, p: Point)
    requires a.Valid() && b.Valid() && a.bounds == b.bounds && a.bounds.Contains(p.x, p.y)
    requires BorderBonus(a.bounds, p) + multiset(Levels(a, p))[0.0] > 2
    ensures !AntiAliased(a, b, p)
  {
  }

  /** What follows the loops of `IsAntiAliased`. */
  method Verdict(a: ImageLineReader, b: ImageLineReader, p: Point, s: Survey, ghost lo: int, ghost hi: int)
    returns (result: bool)
    requires Reading(a, p.y) && Reading(b, p.y) && a.rect == b.rect && a.rect.Contains(p.x, p.y)
    requires
      var ds := Levels(a.image, p);
      Surveyed(s, BorderBonus(a.rect, p), ds, |ds|, Neighbours(a.rect, p), lo, hi)
    requires s.zeroes <= 2
    ensures result == AntiAliased(a.image, b.image, p)
  {
    hide Neighbours, Pixel, YDelta, ManySiblings, Colours, ImageLineReader.Valid;
    ghost var ds := Levels(a.image, p);
    assert ds[..|ds|] == ds;
    if s.max == 0.0 || s.min == 0.0 {
      return false;
    }
    OnlyFirsts(ds, lo, hi);
    NeighbourInside(a.image, p, lo);
    NeighbourInside(a.image, p, hi);
    result := IsFlatInBoth(a, b, s.darkest.x, s.darkest.y, p.y);
    if !result {
      result := IsFlatInBoth(a, b, s.brightest.x, s.brightest.y, p.y);
    }
  }

  lemma {:induction false} OnlyFirsts(ds: seq<real>, lo: int, hi: int)
    requires FirstLeast(ds, lo) && FirstGreatest(ds, hi)
    ensures forall k :: FirstLeast(ds, k) ==> k == lo
    ensures forall k :: FirstGreatest(ds, k) ==> k == hi
  {
  }

  method IsFlatInBoth(a: ImageLineReader, b: ImageLineReader, x: int, y: int, ghost row: int) returns (flat: bool)
    requires Reading(a, row) && Reading(b, row) && a.rect == b.rect && a.rect.Contains(x, y) && row - 1 <= y <= row + 1
    ensures flat == (ManySiblings(a.image, Point(x, y)) && ManySiblings(b.image, Point(x, y)))
  {
    hide ManySiblings;
    flat := HasManySiblings(a, x, y, row);
    if flat {
      flat := HasManySiblings(b, x, y, row);
    }
  }

  /** The two readers share no buffer. */
  ghost predicate Apart(a: ImageLineReader, b: ImageLineReader)
    reads a, b
  {
    forall i, j :: 0 <= i < |a.lines| && 0 <= j < |b.lines| && a.lines[i] != null ==> a.lines[i] != b.lines[j]
  }

  method DiffersAt(ar: ImageLineReader, br: ImageLineReader, o: Options, i: nat) returns (differs: bool)
    requires ar.Valid() && br.Valid() && ar.rect == br.rect && ar.rect.minY < ar.y == br.y && i < ar.width
    requires ar.rect.minX == 0 || o.includeAA || !Exceeds(ar.image, br.image, o, Point(ar.rect.minX + i, ar.Current()))
    ensures differs == Differs(ar.image, br.image, o, Point(ar.rect.minX + i, ar.Current()))
  {
    hide AntiAliased, ColorDelta, MaxDelta, Pixel;
    var x, y := ar.rect.minX + i, ar.Current();
    var delta := ColorDelta(ar.Line()[i], br.Line()[i]);
    if Abs(delta) <= MaxDelta(o) {
      return false;
    }
    if o.includeAA {
      return true;
    }
    var skip := IsAntiAliased(ar, br, x, y);
    if !skip {
      skip := IsAntiAliased(br, ar, x, y);
    }
    return !skip;
  }

  /** One row of the diff loop. */
  method CompareRow(ar: ImageLineReader, br: ImageLineReader, o: Options) returns (diff: nat)
    requires ar.Valid() && br.Valid() && ar.rect == br.rect && ar.rect.minY < ar.y == br.y
    requires ar.rect.minX == 0 || o.includeAA || NoneExceeds(ar.image, br.image, o)
    ensures diff == multiset(Marks(ar.image, br.image, o, ar.Current()))[true]
  {
    hide Differs, Marks;
    diff := 0;
    ghost var m := Marks(ar.image, br.image, o, ar.Current());
    for i := 0 to ar.width
      invariant diff == multiset(m[..i])[true]
    {
      var differs := DiffersAt(ar, br, o, i);
      MarkAt(ar.image, br.image, o, ar.Current(), i);
      CountOneMore(m, i, true);
      if differs {
        diff := diff + 1;
      }
    }
    assert m[..|m|] == m;
  }

  /**
  The number of differing pixels, computed with the two row windows.  Images of
  different sizes are an error.  Where the anti-alias test is made, the images must start
  at column 0, since `At` indexes a row buffer by the column itself (`NoColumnIsRight`).
  */
  method MatchPixel(a: Image, b: Image, o: Options) returns (diff: nat, err: bool)
    requires a.Valid() && b.Valid() && (a.bounds.Eq(b.bounds) ==> Comparable(a, b))
    requires a.bounds.minX == 0 || o.includeAA || NoneExceeds(a, b, o)
    ensures err <==> !a.bounds.Eq(b.bounds)
    ensures diff == if err then 0 else DiffCount(a, b, o)
  {
    hide Differs, Marks, Identical, Comparable, ImageLineReader.Valid;
    if !a.bounds.Eq(b.bounds) {
      return 0, true;
    }
    var same := IsIdentical(a, b);
    if same {
      ShortcutIsSound(a, b, o);
      return 0, false;
    }
    diff, err := 0, false;
    var ar := new ImageLineReader(a, a.bounds.minY);
    var br := new ImageLineReader(b, b.bounds.minY);
    while true
      invariant ar.image == a && br.image == b && ar.Valid() && br.Valid() && fresh(ar) && fresh(br) && ar != br
      invariant |ar.lines| == |br.lines| == 5
      invariant forall i :: 0 <= i < 5 ==> ar.lines[i] == null || fresh(ar.lines[i])
      invariant forall i :: 0 <= i < 5 ==> br.lines[i] == null || fresh(br.lines[i])
      invariant Apart(ar, br)
      invariant ar.y - a.bounds.minY == br.y - b.bounds.minY && ar.rect == a.bounds && br.rect == b.bounds
      invariant a.bounds.minY <= ar.y <= a.bounds.maxY && b.bounds.minY <= br.y <= b.bounds.maxY
      invariant diff == if a.bounds == b.bounds then CountAbove(a, b, o, ar.y) else 0
      decreases a.bounds.maxY - ar.y
    {
      var more := ar.Next();
      if more {
        more := br.Next();
      }
      if !more {
        break;
      }
      if a.bounds == b.bounds {
        var row := CompareRow(ar, br, o);
        diff := diff + row;
      }
    }
  }
}
