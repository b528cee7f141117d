/**
The five-row window of pixelmatch/pixelmatch.go: row buffers that `Next` rotates
and reuses while the current row moves down the image.
*/
module LineReader {
  import opened Pixels

  class ImageLineReader {
    const image: Image
    const rect: Rect
    const width: nat
    var y: int
    var lines: seq<array?<Rgba>>

    constructor (img: Image, y: int)
      requires img.Valid() && y == img.bounds.minY
      ensures image == img && Valid() && this.y == y && rect == img.bounds && |lines| == 5
      ensures forall i :: 0 <= i < 5 ==> lines[i] == null
    {
      image, rect, width := img, img.bounds, img.bounds.Dx();
      this.y := y;
      lines := [null, null, null, null, null];
    }

    /** The row the window is centred on. */
    function Current(): int
      reads this
    {
      y - 1
    }

    /** What a slot must be for its row: a full buffer for a row of the image, nil for any other. */
    ghost predicate Slot(line: array?<Rgba>, row: int)
      requires image.Valid() && image.bounds == rect
      reads line
    {
      if rect.minY <= row < rect.maxY then
        && line != null && line.Length == width == rect.Dx()
        && forall x :: 0 <= x < width ==> line[x] == Pixel(image, rect.minX + x, row)
      else line == null
    }

    /** The slots hold the rows around `row`. */
    ghost predicate Window(row: int)
      requires image.Valid() && image.bounds == rect && |lines| == 5
      reads this, lines
    {
      && Slot(lines[0], row - 2) && Slot(lines[1], row - 1) && Slot(lines[2], row)
      && Slot(lines[3], row + 1) && Slot(lines[4], row + 2)
    }

    /** No two slots share a buffer. */
    ghost predicate Unshared()
      reads this
    {
      forall i, j :: 0 <= i < j < |lines| && lines[i] != null ==> lines[i] != lines[j]
    }

    ghost predicate Valid()
      reads this, lines
    {
      && image.Valid() && image.bounds == rect && width == rect.Dx()
      && |lines| == 5 && rect.minY <= y <= rect.maxY && Unshared()
      && if y == rect.minY then (forall i :: 0 <= i < 5 ==> lines[i] == null) else Window(Current())
    }

    /** Moves the window one row down; false, and nothing changed, after the last row. */
    method Next() returns (ok: bool)
      requires Valid()
      modifies this, lines
      ensures Valid()
      ensures forall i :: 0 <= i < 5 ==> lines[i] == null || lines[i] in old(lines) || fresh(lines[i])
      ensures ok <==> old(y) < rect.maxY
      ensures y == if ok then old(y) + 1 else old(y)
      ensures !ok ==> lines == old(lines)
      ensures rect.minY <= y <= rect.maxY && |lines| == 5
    {
      hide Pixel;
      if y == rect.maxY {
        return false;
      }
      ghost var row := y;
      if lines[2] == null {
        Load();
      } else {
        Rotate();
      }
      assert Window(row);
      y := y + 1;
      assert Window(row) && Unshared();
      return true;
    }

    /** The first row: every slot whose row exists gets a new buffer. */
    method Load()
      requires Valid() && y == rect.minY < rect.maxY
      modifies this`lines
      ensures |lines| == 5 && Unshared()
      ensures forall i :: 0 <= i < 5 ==> lines[i] == null || fresh(lines[i])
      ensures Window(y)
    {
      hide Pixel;
      for i := 0 to 5
        invariant |lines| == 5 && Unshared()
        invariant forall k :: 0 <= k < i ==> lines[k] == null || fresh(lines[k])
        invariant forall k :: i <= k < 5 ==> lines[k] == null
        invariant forall k :: 0 <= k < i ==> Slot(lines[k], y + k - 2)
      {
        var row := y + i - 2;
        if rect.minY <= row < rect.maxY {
          var line := new Rgba[width](_ => Rgba(0, 0, 0, 0));
          ReadLine(line, image, row);
          lines := lines[i := line];
        }
      }
    }

    /** A later row: the slots move up, and the buffer of the row that leaves is read anew. */
    method Rotate()
      requires Valid() && rect.minY < y < rect.maxY
      modifies this`lines, lines
      ensures |lines| == 5 && Unshared()
      ensures forall i :: 0 <= i < 5 ==> lines[i] == null || lines[i] in old(lines) || fresh(lines[i])
      ensures Window(y)
    {
      hide Pixel;
      var oldest := lines[0];
      lines := [lines[1], lines[2], lines[3], lines[4], oldest];
      if rect.minY <= y + 2 < rect.maxY {
        if lines[4] == null {
          var line := new Rgba[width](_ => Rgba(0, 0, 0, 0));
          lines := lines[4 := line];
        }
        ReadLine(lines[4], image, y + 2);
      } else {
        lines := lines[4 := null];
      }
    }

    /** The current row, as the diff loop indexes it. */
    function Line(): (line: array<Rgba>)
      requires Valid() && rect.minY < y
      reads this, lines
      ensures line.Length == width
      ensures forall i :: 0 <= i < width ==> line[i] == Pixel(image, rect.minX + i, Current())
    {
      lines[2]
    }

    /**
    The pixel at (x, row), for a row at most two away from the current one.  The
    column indexes the buffer without subtracting the left edge, so the value is that
    of the image only when that edge is 0.
    */
    function At(x: int, row: int): (c: Rgba)
      requires Valid() && rect.minY < y && rect.minY <= row < rect.maxY
      requires Current() - 2 <= row <= Current() + 2 && 0 <= x < width
      reads this, lines
      ensures c == Pixel(image, rect.minX + x, row)
    {
      lines[row - Current() + 2][x]
    }
  }

  /** Every column of the image is an index of the row buffers. */
  predicate ColumnsFit(r: Rect) {
    forall x :: r.minX <= x < r.maxX ==> IsIndex(x, r.Dx())
  }

  predicate IsIndex(x: int, n: int) { 0 <= x < n }

  /** That is so exactly for images that start at column 0. */
  lemma {:induction false} ColumnsIndexLines(r: Rect)
    requires r.WellFormed() && r.Dx() > 0
    ensures ColumnsFit(r) <==> r.minX == 0
  {
    if ColumnsFit(r) {
      assert IsIndex(r.minX, r.Dx());
      assert IsIndex(r.maxX - 1, r.Dx());
    }
  }

  /**
  With any other left edge no column is read right: it is out of range for the buffers, or
  the read gives the pixel of another column.
  */
  lemma {:induction false} NoColumnIsRight(r: ImageLineReader, x: int, row: int)
    requires r.Valid() && r.rect.minX != 0 && r.rect.Contains(x, row) && r.rect.minY < r.y
    requires r.Current() - 2 <= row <= r.Current() + 2
    ensures !IsIndex(x, r.width) ||
      (r.At(x, row) == Pixel(r.image, r.rect.minX + x, row) && r.rect.minX + x != x)
  {
  }

  /** A two-column image that starts at column 1, each column of its own colour. */
  function Striped(): Image {
    Other((x: int, y: int) => Rgba(if x == 1 then 0 else 0xffff, 0, 0, 0xffff), Rect(1, 0, 3, 1))
  }

  /** Its column 1 is read as column 2, and its column 2 is out of range. */
  method ShiftedRead() returns (read: Rgba)
    ensures read == Pixel(Striped(), 2, 0) != Pixel(Striped(), 1, 0)
    ensures !IsIndex(2, Striped().bounds.Dx())
  {
    var reader := new ImageLineReader(Striped(), 0);
    var _ := reader.Next();
    read := reader.At(1, 0);
  }
}
