/**
Images and colours of pixelmatch/pixelmatch.go: the encodings `readLine` decodes,
the colour distance (over the reals), and the byte-wise shortcut `isIdentical`.
*/
module Pixels {
  import opened Octets

  // ---------- colours ----------

  /** Alpha-premultiplied components, at most 16 bits each. */
  datatype Rgba = Rgba(r: nat, g: nat, b: nat, a: nat)

  function Component(c: nat): real { c as real * (1.0 / 256.0) }

  function Blend(c: real, a: real): real { 255.0 + (c - 255.0) * a }

  /** One colour component over white. */
  function Shown(c: nat, alpha: nat): real {
    if Component(alpha) < 255.0 then Blend(Component(c), Component(alpha) / 255.0) else Component(c)
  }

  function LumaY(r: real, g: real, b: real): real { r * 0.29889531 + g * 0.58662247 + b * 0.11448223 }

  function LumaI(r: real, g: real, b: real): real { r * 0.59597799 - g * 0.27417610 - b * 0.32180189 }

  function LumaQ(r: real, g: real, b: real): real { r * 0.21147017 - g * 0.52261711 + b * 0.31114694 }

  function Y(c: Rgba): real { LumaY(Shown(c.r, c.a), Shown(c.g, c.a), Shown(c.b, c.a)) }

  function I(c: Rgba): real { LumaI(Shown(c.r, c.a), Shown(c.g, c.a), Shown(c.b, c.a)) }

  function Q(c: Rgba): real { LumaQ(Shown(c.r, c.a), Shown(c.g, c.a), Shown(c.b, c.a)) }

  function Square(x: real): real { x * x }

  function YDelta(a: Rgba, b: Rgba): real { if a == b then 0.0 else Y(a) - Y(b) }

  /** Negative when the first colour is the brighter one. */
  function ColorDelta(a: Rgba, b: Rgba): real {
    if a == b then 0.0
    else
      var delta := 0.5053 * Square(Y(a) - Y(b)) + 0.299 * Square(I(a) - I(b)) + 0.1957 * Square(Q(a) - Q(b));
      if Y(a) > Y(b) then -delta else delta
  }

  function Abs(x: real): real { if x < 0.0 then -x else x }

  lemma {:induction false} SquareEven(x: real, y: real)
    ensures Square(x - y) == Square(y - x)
  {
    assert x - y == -(y - x);
  }

  /** The distance does not depend on the order of the colours; only its sign may. */
  lemma {:induction false} DeltaIsSymmetric(a: Rgba, b: Rgba)
    ensures Abs(ColorDelta(a, b)) == Abs(ColorDelta(b, a))
  {
    SquareEven(Y(a), Y(b));
    SquareEven(I(a), I(b));
    SquareEven(Q(a), Q(b));
  }

  // ---------- images ----------

  datatype Rect = Rect(minX: int, minY: int, maxX: int, maxY: int) {
    predicate WellFormed() { minX <= maxX && minY <= maxY }

    function Dx(): int { maxX - minX }

    function Dy(): int { maxY - minY }

    predicate Empty() { minX >= maxX || minY >= maxY }

    /** All empty rectangles count as equal. */
    predicate Eq(s: Rect) { this == s || (Empty() && s.Empty()) }

    predicate Contains(x: int, y: int) { minX <= x < maxX && minY <= y < maxY }
  }

  datatype Encoding = RGBA | RGBA64 | NRGBA | NRGBA64 | Gray | Gray16

  function Width(e: Encoding): nat {
    match e
    case RGBA => 4
    case RGBA64 => 8
    case NRGBA => 4
    case NRGBA64 => 8
    case Gray => 1
    case Gray16 => 2
  }

  /** An image of the standard library with its bytes, or any other image. */
  datatype Image =
    | Encoded(enc: Encoding, pix: Bytes, stride: nat, bounds: Rect)
    | Other(at: (int, int) -> Rgba, bounds: Rect)
  {
    /** Rows do not overlap and the bytes of every pixel are there; a sub-image may end right after its last pixel. */
    predicate Valid() {
      && bounds.WellFormed()
      && (Encoded? && !bounds.Empty() ==>
        && stride >= bounds.Dx() * Width(enc)
        && |pix| >= (bounds.Dy() - 1) * stride + bounds.Dx() * Width(enc))
    }

    function PixOffset(x: int, y: int): int
      requires Encoded?
    {
      (y - bounds.minY) * stride + (x - bounds.minX) * Width(enc)
    }
  }

  lemma {:induction false} Scaled(a: int, b: int, k: nat)
    requires a <= b
    ensures a * k <= b * k
  {
  }

  lemma {:induction false} PixelInside(img: Image, x: int, y: int)
    requires img.Encoded? && img.Valid() && img.bounds.Contains(x, y)
    ensures 0 <= img.PixOffset(x, y) && img.PixOffset(x, y) + Width(img.enc) <= |img.pix|
  {
    var r, w := img.bounds, Width(img.enc);
    Scaled(0, y - r.minY, img.stride);
    Scaled(y - r.minY, r.Dy() - 1, img.stride);
    Scaled(0, x - r.minX, w);
    Scaled(x - r.minX + 1, r.Dx(), w);
  }

  // ---------- decoding ----------

  function U32(n: nat): nat { n % 0x1_0000_0000 }

  /** An 8-bit component as 16 bits. */
  function Widen(c: Byte): nat { c * 256 + c }

  function Two(hi: Byte, lo: Byte): nat { hi * 256 + lo }

  /** One pixel from its bytes; the products are those of 32-bit words. */
  function Decode(e: Encoding, s: Bytes): Rgba
    requires |s| == Width(e)
  {
    match e
    case RGBA => Rgba(Widen(s[0]), Widen(s[1]), Widen(s[2]), Widen(s[3]))
    case RGBA64 => Rgba(Two(s[0], s[1]), Two(s[2], s[3]), Two(s[4], s[5]), Two(s[6], s[7]))
    case NRGBA =>
      if s[3] == 0xff then Rgba(Widen(s[0]), Widen(s[1]), Widen(s[2]), 0xffff)
      else Rgba(U32(Widen(s[0]) * s[3]) / 0xff, U32(Widen(s[1]) * s[3]) / 0xff,
                U32(Widen(s[2]) * s[3]) / 0xff, Widen(s[3]))
    case NRGBA64 =>
      var a := Two(s[6], s[7]);
      Rgba(U32(Two(s[0], s[1]) * a) / 0xffff, U32(Two(s[2], s[3]) * a) / 0xffff,
           U32(Two(s[4], s[5]) * a) / 0xffff, a)
    case Gray => Rgba(Widen(s[0]), Widen(s[0]), Widen(s[0]), 0xffff)
    case Gray16 => Rgba(Two(s[0], s[1]), Two(s[0], s[1]), Two(s[0], s[1]), 0xffff)
  }

  /** No product of a component and an alpha wraps. */
  lemma {:induction false} NoProductWraps(c: nat, a: nat, top: nat)
    requires c <= 0xffff && a <= top <= 0xffff && top > 0
    ensures U32(c * a) == c * a && U32(c * a) / top <= c
  {
    Scaled(c, 0xffff, a);
    assert c * a <= 0xffff * 0xffff;
    QuotientBounded(c, a, top);
  }

  predicate SixteenBits(c: Rgba) { c.r <= 0xffff && c.g <= 0xffff && c.b <= 0xffff && c.a <= 0xffff }

  /** The components are at most the alpha. */
  predicate Premultiplied(c: Rgba) { c.r <= c.a && c.g <= c.a && c.b <= c.a }

  /** No decoded component exceeds 16 bits; what had to be multiplied by its alpha is at most the alpha. */
  lemma {:induction false} DecodedIsBounded(e: Encoding, s: Bytes)
    requires |s| == Width(e)
    ensures SixteenBits(Decode(e, s)) && (e != RGBA && e != RGBA64 ==> Premultiplied(Decode(e, s)))
  {
    if e == NRGBA {
      Premultiplied8(s[0], s[3]);
      Premultiplied8(s[1], s[3]);
      Premultiplied8(s[2], s[3]);
    } else if e == NRGBA64 {
      var a := Two(s[6], s[7]);
      Premultiplied16(Two(s[0], s[1]), a);
      Premultiplied16(Two(s[2], s[3]), a);
      Premultiplied16(Two(s[4], s[5]), a);
    }
  }

  /** The order of the channels: each byte by itself. */
  lemma {:induction false} ChannelOrder(v: Byte, w: Byte)
    ensures
      && Decode(RGBA, [v, 0, 0, 0]) == Rgba(257 * v, 0, 0, 0) && Decode(RGBA, [0, v, 0, 0]) == Rgba(0, 257 * v, 0, 0)
      && Decode(RGBA, [0, 0, v, 0]) == Rgba(0, 0, 257 * v, 0) && Decode(RGBA, [0, 0, 0, v]) == Rgba(0, 0, 0, 257 * v)
    ensures
      && Decode(RGBA64, [v, w, 0, 0, 0, 0, 0, 0]) == Rgba(256 * v + w, 0, 0, 0)
      && Decode(RGBA64, [0, 0, v, w, 0, 0, 0, 0]) == Rgba(0, 256 * v + w, 0, 0)
      && Decode(RGBA64, [0, 0, 0, 0, v, w, 0, 0]) == Rgba(0, 0, 256 * v + w, 0)
      && Decode(RGBA64, [0, 0, 0, 0, 0, 0, v, w]) == Rgba(0, 0, 0, 256 * v + w)
  {
  }

  /** Each byte twice. */
  function Doubled(s: Bytes): Bytes { seq(2 * |s|, i requires 0 <= i < 2 * |s| => s[i / 2]) }

  /** Eight bits are sixteen with both bytes the same. */
  lemma {:induction false} EightBitsAreSixteen(s: Bytes)
    requires |s| == 4
    ensures Decode(RGBA64, Doubled(s)) == Decode(RGBA, s)
    ensures Decode(NRGBA64, Doubled(s)) == Decode(NRGBA, s)
  {
    hide U32;
    SameProduct(s[0], s[3]);
    SameProduct(s[1], s[3]);
    SameProduct(s[2], s[3]);
    var d := Doubled(s);
    assert d[0] == d[1] == s[0] && d[2] == d[3] == s[1] && d[4] == d[5] == s[2] && d[6] == d[7] == s[3];
  }

  /** Opaque, multiplying by the alpha makes no difference; fully transparent, nothing is left. */
  lemma {:induction false} OpaqueAndTransparent(s: Bytes)
    requires |s| == 4
    ensures s[3] == 255 ==> Decode(NRGBA, s) == Decode(RGBA, s)
    ensures s[3] == 0 ==> Decode(NRGBA, s) == Rgba(0, 0, 0, 0)
  {
  }

  lemma {:induction false} GreyIsOpaque(y: Byte, z: Byte)
    ensures Decode(Gray, [y]) == Decode(RGBA, [y, y, y, 255])
    ensures Decode(Gray16, [y, z]) == Decode(RGBA64, [y, z, y, z, y, z, 255, 255])
  {
  }

  lemma {:induction false} SameProduct(c: Byte, a: Byte)
    ensures U32(Two(c, c) * Two(a, a)) / 0xffff == U32(Widen(c) * a) / 0xff
    ensures a == 255 ==> U32(Two(c, c) * Two(a, a)) / 0xffff == Widen(c)
  {
    NoProductWraps(Widen(c), Widen(a), 0xffff);
    NoProductWraps(Widen(c), a, 0xff);
    var x := Widen(c) * a;
    assert Widen(c) * Widen(a) == x * 257;
    QuotientScales(x, 257, 0xff);
    if a == 255 {
      assert x == Widen(c) * 0xff;
    }
  }

  lemma {:induction false} QuotientScales(x: nat, k: nat, d: nat)
    requires k > 0 && d > 0 && k * d > 0
    ensures (x * k) / (k * d) == x / d
  {
    var q, r := x / d, x % d;
    assert x == q * d + r;
    assert x * k == q * (k * d) + r * k;
    assert r * k < k * d by { Scaled(r + 1, d, k); }
    DivideIs(x * k, k * d, q, r * k);
  }

  lemma {:induction false} DivideIs(n: nat, d: nat, q: nat, r: nat)
    requires n == q * d + r && r < d
    ensures n / d == q
  {
    if n / d < q {
      Scaled(n / d + 1, q, d);
    } else if n / d > q {
      Scaled(q + 1, n / d, d);
    }
  }

  lemma {:induction false} Premultiplied8(c: Byte, a: Byte)
    ensures U32(Widen(c) * a) / 0xff <= Widen(a)
  {
    NoProductWraps(Widen(c), a, 0xff);
    assert Widen(c) * a == Widen(a) * c;
    QuotientBounded(Widen(a), c, 0xff);
  }

  lemma {:induction false} Premultiplied16(c: nat, a: nat)
    requires c <= 0xffff && a <= 0xffff
    ensures U32(c * a) / 0xffff <= a
  {
    NoProductWraps(c, a, 0xffff);
    assert c * a == a * c;
    QuotientBounded(a, c, 0xffff);
  }

  lemma {:induction false} QuotientBounded(c: nat, a: nat, top: nat)
    requires a <= top && top > 0
    ensures c * a / top <= c
  {
    Scaled(a, top, c);
    DivMonotone(a * c, top * c, top);
    DivExact(c, top);
  }

  lemma {:induction false} DivExact(c: nat, k: nat)
    requires k > 0
    ensures c * k / k == c
  {
    var q := c * k / k;
    var r := c * k % k;
    assert c * k == q * k + r && 0 <= r < k;
    assert (c - q) * k == r;
    if c - q >= 1 {
      Scaled(1, c - q, k);
    } else if c - q <= -1 {
      Scaled(c - q, -1, k);
    }
  }

  lemma {:induction false} DivMonotone(m: nat, n: nat, k: nat)
    requires k > 0 && m <= n
    ensures m / k <= n / k
  {
    if m / k > n / k {
      Scaled(n / k + 1, m / k, k);
    }
  }

  function Pixel(img: Image, x: int, y: int): Rgba
    requires img.Valid() && img.bounds.Contains(x, y)
  {
    match img
    case Other(at, _) => at(x, y)
    case Encoded(e, pix, _, _) =>
      PixelInside(img, x, y);
      var o := img.PixOffset(x, y);
      Decode(e, pix[o..o + Width(e)])
  }

  /** Rows of bytes, one behind the other. */
  function Stacked(rows: seq<Bytes>): Bytes { if rows == [] then [] else rows[0] + Stacked(rows[1..]) }

  lemma {:induction false} StackedRow(rows: seq<Bytes>, stride: nat, j: nat)
    requires j < |rows| && forall k :: 0 <= k < |rows| ==> |rows[k]| == stride
    ensures j * stride >= 0 && j * stride + stride <= |Stacked(rows)| == |rows| * stride
    ensures Stacked(rows)[j * stride..j * stride + stride] == rows[j]
    decreases |rows|
  {
    if |rows| == 1 {
      assert rows[1..] == [] && j == 0;
    } else {
      var more := rows[1..];
      assert |rows| * stride == stride + |more| * stride;
      StackedRow(more, stride, if j == 0 then 0 else j - 1);
      if j > 0 {
        assert j * stride == stride + (j - 1) * stride;
        assert Stacked(rows)[stride..] == Stacked(more);
        assert Stacked(more)[(j - 1) * stride..(j - 1) * stride + stride] == rows[j];
        TailSlice(rows[0], Stacked(more), (j - 1) * stride, stride);
      }
    }
  }

  lemma {:induction false} TailSlice(a: Bytes, b: Bytes, from: nat, n: nat)
    requires from + n <= |b|
    ensures (a + b)[|a| + from..|a| + from + n] == b[from..from + n]
  {
  }

  lemma {:induction false} StackedIsValid(e: Encoding, rows: seq<Bytes>, stride: nat, bounds: Rect)
    requires bounds.WellFormed() && |rows| == bounds.Dy()
    requires stride >= bounds.Dx() * Width(e) && forall k :: 0 <= k < |rows| ==> |rows[k]| == stride
    ensures Encoded(e, Stacked(rows), stride, bounds).Valid()
  {
    if bounds.Dy() > 0 {
      StackedRow(rows, stride, bounds.Dy() - 1);
    }
  }

  lemma {:induction false} ColumnInside(i: nat, dx: nat, w: nat, stride: nat)
    requires i < dx && dx * w <= stride
    ensures 0 <= i * w && i * w + w <= stride
  {
    Scaled(i + 1, dx, w);
    assert (i + 1) * w == i * w + w;
  }

  /** An image of stacked rows has, in column i of row j, the pixel of those bytes of that row. */
  lemma {:induction false} RowsAreStacked(e: Encoding, rows: seq<Bytes>, stride: nat, bounds: Rect, i: nat, j: nat)
    requires bounds.WellFormed() && |rows| == bounds.Dy() && i < bounds.Dx() && j < bounds.Dy()
    requires stride >= bounds.Dx() * Width(e) && forall k :: 0 <= k < |rows| ==> |rows[k]| == stride
    ensures
      var img, w := Encoded(e, Stacked(rows), stride, bounds), Width(e);
      && img.Valid() && 0 <= i * w && i * w + w <= stride
      && Pixel(img, bounds.minX + i, bounds.minY + j) == Decode(e, rows[j][i * w..i * w + w])
  {
    hide Decode, Image.Valid, Width, Stacked;
    var w := Width(e);
    StackedIsValid(e, rows, stride, bounds);
    StackedRow(rows, stride, j);
    ColumnInside(i, bounds.Dx(), w, stride);
    RowSlice(Stacked(rows), j * stride, stride, i * w, w);
  }

  lemma {:induction false} RowSlice(pix: Bytes, from: nat, stride: nat, at: nat, w: nat)
    requires from + stride <= |pix| && at + w <= stride
    ensures pix[from + at..from + at + w] == pix[from..from + stride][at..at + w]
  {
    var row, part := pix[from..from + stride], pix[from + at..from + at + w];
    forall k | 0 <= k < w
      ensures part[k] == row[at..at + w][k]
    {
      assert row[at..at + w][k] == row[at + k] == pix[from + at + k];
    }
  }

  /** Decodes row `y` into `dst`. */
  method ReadLine(dst: array<Rgba>, img: Image, y: int)
    requires img.Valid() && dst.Length == img.bounds.Dx()
    requires img.bounds.minY <= y < img.bounds.maxY
    modifies dst
    ensures forall i :: 0 <= i < dst.Length ==> dst[i] == Pixel(img, img.bounds.minX + i, y)
  {
    var r := img.bounds;
    for i := 0 to dst.Length
      invariant forall k :: 0 <= k < i ==> dst[k] == Pixel(img, r.minX + k, y)
    {
      match img
      case Other(at, _) =>
        dst[i] := at(r.minX + i, y);
      case Encoded(e, pix, stride, _) =>
        var lineOffset := img.PixOffset(r.minX, y);
        var offset := lineOffset + i * Width(e);
        PixelInside(img, r.minX + i, y);
        assert offset == img.PixOffset(r.minX + i, y);
        dst[i] := Decode(e, pix[offset..offset + Width(e)]);
    }
  }

  // ---------- the shortcut ----------

  /** Row `y` of the buffer can be sliced out. */
  predicate HasRow(pix: Bytes, stride: nat, y: int) { 0 <= y * stride <= |pix| - stride }

  function Row(pix: Bytes, stride: nat, y: int): Bytes
    requires HasRow(pix, stride, y)
  {
    pix[y * stride..y * stride + stride]
  }

  predicate SameRow(pixA: Bytes, pixB: Bytes, strideA: nat, strideB: nat, y: int) {
    HasRow(pixA, strideA, y) && HasRow(pixB, strideB, y) && Row(pixA, strideA, y) == Row(pixB, strideB, y)
  }

  /** The slices that are taken from row `y` on exist; none is taken after a row that differs. */
  predicate SliceableFrom(pixA: Bytes, pixB: Bytes, strideA: nat, strideB: nat, h: int, y: int)
    decreases h - y
  {
    y < h ==>
      && HasRow(pixA, strideA, y) && HasRow(pixB, strideB, y)
      && (SameRow(pixA, pixB, strideA, strideB, y) ==> SliceableFrom(pixA, pixB, strideA, strideB, h, y + 1))
  }

  predicate SameFrom(pixA: Bytes, pixB: Bytes, strideA: nat, strideB: nat, h: int, y: int)
    decreases h - y
  {
    y < h ==> SameRow(pixA, pixB, strideA, strideB, y) && SameFrom(pixA, pixB, strideA, strideB, h, y + 1)
  }

  predicate Whole(pixA: Bytes, pixB: Bytes, rect: Rect) { rect.Dx() * rect.Dy() == |pixA| == |pixB| }

  /** No slice that `equals` takes is out of range. */
  predicate Sliceable(pixA: Bytes, pixB: Bytes, strideA: nat, strideB: nat, rect: Rect) {
    Whole(pixA, pixB, rect) || SliceableFrom(pixA, pixB, strideA, strideB, rect.Dy(), 0)
  }

  predicate SameBytes(pixA: Bytes, pixB: Bytes, strideA: nat, strideB: nat, rect: Rect) {
    if Whole(pixA, pixB, rect) then pixA == pixB else SameFrom(pixA, pixB, strideA, strideB, rect.Dy(), 0)
  }

  method Equals(pixA: Bytes, pixB: Bytes, strideA: nat, strideB: nat, rect: Rect) returns (same: bool)
    requires rect.WellFormed() && Sliceable(pixA, pixB, strideA, strideB, rect)
    ensures same <==> SameBytes(pixA, pixB, strideA, strideB, rect)
  {
    hide HasRow, Row;
    var w, h := rect.Dx(), rect.Dy();
    if w * h == |pixA| && w * h == |pixB| {
      return pixA == pixB;
    }
    for y := 0 to h
      invariant SliceableFrom(pixA, pixB, strideA, strideB, h, y)
      invariant SameFrom(pixA, pixB, strideA, strideB, h, 0) <==> SameFrom(pixA, pixB, strideA, strideB, h, y)
    {
      var rowA, rowB := SliceRow(pixA, strideA, y), SliceRow(pixB, strideB, y);
      if rowA != rowB {
        return false;
      }
    }
    return true;
  }

  function SliceRow(pix: Bytes, stride: nat, y: int): (row: Bytes)
    requires HasRow(pix, stride, y)
    ensures row == Row(pix, stride, y)
  {
    pix[y * stride..y * stride + stride]
  }

  /** Equal buffers have equal rows. */
  lemma {:induction false} SameRowAt(pixA: Bytes, pixB: Bytes, strideA: nat, strideB: nat, h: int, y: int, k: int)
    requires SameFrom(pixA, pixB, strideA, strideB, h, y) && y <= k < h
    ensures SameRow(pixA, pixB, strideA, strideB, k)
    decreases k - y
  {
    hide SameRow;
    if y < k {
      SameRowAt(pixA, pixB, strideA, strideB, h, y + 1, k);
    }
  }

  /** Two images of one encoding whose rows can be compared. */
  predicate Comparable(a: Image, b: Image) {
    a.Encoded? && b.Encoded? && a.enc == b.enc ==> Sliceable(a.pix, b.pix, a.stride, b.stride, a.bounds)
  }

  predicate Identical(a: Image, b: Image) {
    a.Encoded? && b.Encoded? && a.enc == b.enc && SameBytes(a.pix, b.pix, a.stride, b.stride, a.bounds)
  }

  method IsIdentical(a: Image, b: Image) returns (same: bool)
    requires a.bounds.WellFormed() && Comparable(a, b)
    ensures same <==> Identical(a, b)
  {
    if a.Encoded? && b.Encoded? && a.enc == b.enc {
      same := Equals(a.pix, b.pix, a.stride, b.stride, a.bounds);
    } else {
      same := false;
    }
  }

  /** A full image holds whole rows; two full images with the same bounds can always be compared. */
  predicate Full(img: Image) {
    img.Encoded? ==> |img.pix| == img.bounds.Dy() * img.stride
  }

  lemma {:induction false} FullIsComparable(a: Image, b: Image)
    requires a.Valid() && b.Valid() && a.bounds == b.bounds && Full(a) && Full(b)
    ensures Comparable(a, b)
  {
    if a.Encoded? && b.Encoded? {
      AllRows(a.pix, b.pix, a.stride, b.stride, a.bounds.Dy(), 0);
    }
  }

  lemma {:induction false} AllRows(pixA: Bytes, pixB: Bytes, strideA: nat, strideB: nat, h: int, y: int)
    requires 0 <= y <= h && |pixA| == h * strideA && |pixB| == h * strideB
    ensures SliceableFrom(pixA, pixB, strideA, strideB, h, y)
    decreases h - y
  {
    hide SameRow;
    if y < h {
      RowOfWhole(pixA, strideA, h, y);
      RowOfWhole(pixB, strideB, h, y);
      AllRows(pixA, pixB, strideA, strideB, h, y + 1);
    }
  }

  lemma {:induction false} RowOfWhole(pix: Bytes, stride: nat, h: int, y: int)
    requires 0 <= y < h && |pix| == h * stride
    ensures HasRow(pix, stride, y)
  {
    Scaled(0, y, stride);
    Scaled(y + 1, h, stride);
  }

  /** When the whole buffers are compared, the pixels sit at the same places in both. */
  lemma {:induction false} WholeBufferOffsets(a: Image, b: Image, x: int, y: int)
    requires a.Encoded? && b.Encoded? && a.enc == b.enc && a.Valid() && b.Valid() && a.bounds == b.bounds
    requires a.bounds.Contains(x, y)
    requires a.bounds.Dx() * a.bounds.Dy() == |a.pix| == |b.pix|
    ensures a.PixOffset(x, y) == b.PixOffset(x, y)
  {
    if a.bounds.Dy() == 1 {
      assert y - a.bounds.minY == 0;
    } else {
      TightStride(a.bounds.Dx(), a.bounds.Dy(), a.stride, Width(a.enc));
      TightStride(a.bounds.Dx(), a.bounds.Dy(), b.stride, Width(a.enc));
    }
  }

  lemma {:induction false} TightStride(w: int, h: int, stride: nat, bpp: nat)
    requires w > 0 && h > 1 && bpp >= 1 && stride >= w * bpp
    requires w * h >= (h - 1) * stride + w * bpp
    ensures stride == w
  {
    Scaled(1, bpp, w);
    assert stride >= w;
    if stride > w {
      Scaled(w + 1, stride, h - 1);
    }
  }

  /** A pixel from the slice of its row. */
  lemma {:induction false} PixelInRow(img: Image, x: int, y: int)
    requires img.Encoded? && img.Valid() && img.bounds.Contains(x, y)
    requires HasRow(img.pix, img.stride, y - img.bounds.minY)
    ensures
      var row := Row(img.pix, img.stride, y - img.bounds.minY);
      var i, w := (x - img.bounds.minX) * Width(img.enc), Width(img.enc);
      0 <= i <= |row| - w && Pixel(img, x, y) == Decode(img.enc, row[i..i + w])
  {
    hide Decode, HasRow;
    var w := Width(img.enc);
    var i := (x - img.bounds.minX) * w;
    ColumnInRow(img, x, y);
    PixelInside(img, x, y);
    RowStart(img, y);
    SliceOfSlice(img.pix, (y - img.bounds.minY) * img.stride, img.stride, i, w);
  }

  lemma {:induction false} RowStart(img: Image, y: int)
    requires img.Encoded? && HasRow(img.pix, img.stride, y - img.bounds.minY)
    ensures
      var lo := (y - img.bounds.minY) * img.stride;
      0 <= lo <= |img.pix| - img.stride && Row(img.pix, img.stride, y - img.bounds.minY) == img.pix[lo..lo + img.stride]
  {
  }

  lemma {:induction false} ColumnInRow(img: Image, x: int, y: int)
    requires img.Encoded? && img.Valid() && img.bounds.Contains(x, y)
    ensures
      var i, w := (x - img.bounds.minX) * Width(img.enc), Width(img.enc);
      0 <= i <= img.stride - w
  {
    Scaled(0, x - img.bounds.minX, Width(img.enc));
    Scaled(x - img.bounds.minX + 1, img.bounds.Dx(), Width(img.enc));
  }

  lemma {:induction false} SameRowPixel(a: Image, b: Image, x: int, y: int)
    requires a.Encoded? && b.Encoded? && a.enc == b.enc && a.Valid() && b.Valid() && a.bounds == b.bounds
    requires a.bounds.Contains(x, y) && SameRow(a.pix, b.pix, a.stride, b.stride, y - a.bounds.minY)
    ensures Pixel(a, x, y) == Pixel(b, x, y)
  {
    hide Decode, Width, Pixel, HasRow, Row;
    PixelInRow(a, x, y);
    PixelInRow(b, x, y);
  }

  lemma {:induction false} SliceOfSlice(p: Bytes, lo: int, len: nat, i: int, w: nat)
    requires 0 <= lo <= |p| - len && 0 <= i <= len - w
    ensures p[lo + i..lo + i + w] == p[lo..lo + len][i..i + w]
  {
    var u, v := p[lo + i..lo + i + w], p[lo..lo + len][i..i + w];
    forall k | 0 <= k < w
      ensures u[k] == v[k]
    {
      assert p[lo..lo + len][i + k] == p[lo + i + k];
    }
  }

  /** Bytes the shortcut takes for identical decode to the same pixels, in every encoding. */
  lemma {:induction false} IdenticalPixels(a: Image, b: Image, x: int, y: int)
    requires a.Valid() && b.Valid() && a.bounds == b.bounds && Identical(a, b)
    requires a.bounds.Contains(x, y)
    ensures Pixel(a, x, y) == Pixel(b, x, y)
  {
    if Whole(a.pix, b.pix, a.bounds) {
      WholeBufferOffsets(a, b, x, y);
    } else {
      SameRowAt(a.pix, b.pix, a.stride, b.stride, a.bounds.Dy(), 0, y - a.bounds.minY);
      SameRowPixel(a, b, x, y);
    }
  }
}
