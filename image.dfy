/**
 * Image tiles and image ids (src/vtbackend/Image.cpp): cutting the RGBA bytes
 * of one grid cell out of a rasterized image, and numbering new images.
 */
module Images {

  newtype byte = x: int | 0 <= x < 256

  /** RGBAColor: the colour that pads a tile where the image does not reach. */
  datatype RGBAColor = RGBAColor(red: byte, green: byte, blue: byte, alpha: byte)

  datatype ImageFormat = RGB | RGBA | PNG

  /** Image: an id and the pixel bytes, 4 per pixel, row by row. */
  datatype Image = Image(id: nat, format: ImageFormat, data: seq<byte>, width: nat, height: nat)

  /**
   * RasterizedImage: an image laid over the grid, each cell cellWidth by
   * cellHeight pixels. The alignment and resize policies and the cell span
   * take no part in `fragment` and are not modelled.
   */
  datatype RasterizedImage = RasterizedImage(image: Image, defaultColor: RGBAColor, cellWidth: nat, cellHeight: nat)

  // ---------------------------------------------------------------------------
  // Products
  // ---------------------------------------------------------------------------

  /**
   * a * b, written as repeated addition: the proofs below see a product only
   * through MulIsProduct, MulMonotone and MulScale.
   */
  function Mul(a: nat, b: nat): nat {
    if a == 0 then 0 else Mul(a - 1, b) + b
  }

  lemma {:induction false} MulIsProduct(a: nat, b: nat)
    ensures Mul(a, b) == a * b
  {
    if a > 0 {
      MulIsProduct(a - 1, b);
    }
  }

  lemma {:induction false} MulMonotone(a: nat, c: nat, b: nat)
    requires a <= c
    ensures Mul(a, b) <= Mul(c, b)
  {
    if a < c {
      MulMonotone(a, c - 1, b);
    }
  }

  lemma {:induction false} MulScale(a: nat, b: nat)
    ensures Mul(a, 4 * b) == 4 * Mul(a, b)
  {
    if a > 0 {
      MulScale(a - 1, b);
    }
  }

  // ---------------------------------------------------------------------------
  // The tile a fragment holds
  // ---------------------------------------------------------------------------

  function Min(a: int, b: int): int { if a <= b then a else b }

  /** The pixels of the image right of the cell's left edge, at most one cell's width. */
  function AvailableWidth(r: RasterizedImage, column: nat): int {
    Min(r.image.width - Mul(column, r.cellWidth), r.cellWidth)
  }

  /** The pixels of the image below the cell's top edge, at most one cell's height. */
  function AvailableHeight(r: RasterizedImage, line: nat): int {
    Min(r.image.height - Mul(line, r.cellHeight), r.cellHeight)
  }

  /**
   * The cells a tile can be cut from: a cell whose top-left corner lies inside
   * the image, an image holding `height` rows of `width` pixels of 4 bytes.
   */
  predicate ValidCell(r: RasterizedImage, line: nat, column: nat) {
    |r.image.data| == Mul(r.image.height, r.image.width) * 4
    && AvailableWidth(r, column) >= 0 && AvailableHeight(r, line) >= 0
  }

  /** Bytes in one row of a tile, and in the whole tile (the cell's area times 4). */
  function RowLength(r: RasterizedImage): nat { r.cellWidth * 4 }
  function TileLength(r: RasterizedImage): nat { Mul(r.cellHeight, r.cellWidth) * 4 }

  /** The colour's bytes in the order red, green, blue, alpha. */
  function ColorBytes(c: RGBAColor): seq<byte> { [c.red, c.green, c.blue, c.alpha] }

  /** `n` pixels of the colour. */
  function Fill(c: RGBAColor, n: nat): (s: seq<byte>)
    ensures |s| == 4 * n
  {
    if n == 0 then [] else Fill(c, n - 1) + ColorBytes(c)
  }

  /** The byte offset in the image of the first pixel of the tile's row `y`. */
  function StartOffset(r: RasterizedImage, line: nat, column: nat, y: nat): nat {
    (Mul(Mul(line, r.cellHeight) + y, r.image.width) + Mul(column, r.cellWidth)) * 4
  }

  /** A copied row reads only bytes of the image. */
  lemma RowInImage(r: RasterizedImage, line: nat, column: nat, y: nat)
    requires ValidCell(r, line, column) && y < AvailableHeight(r, line)
    ensures StartOffset(r, line, column, y) + AvailableWidth(r, column) * 4 <= |r.image.data|
  {
    var row := Mul(line, r.cellHeight) + y;
    MulMonotone(row + 1, r.image.height, r.image.width);
    assert Mul(row + 1, r.image.width) == Mul(row, r.image.width) + r.image.width;
  }

  /**
   * The bytes of the image the tile's row `y` copies: availableWidth pixels of
   * image row `line * cellHeight + y`, from column `column * cellWidth` on.
   */
  function ImageRow(r: RasterizedImage, line: nat, column: nat, y: nat): (bytes: seq<byte>)
    requires ValidCell(r, line, column) && y < AvailableHeight(r, line)
    ensures |bytes| == AvailableWidth(r, column) * 4
  {
    var start := StartOffset(r, line, column, y);
    RowInImage(r, line, column, y);
    r.image.data[start..start + AvailableWidth(r, column) * 4]
  }

  /** Row `y` of the tile: the image's bytes as far as they reach, then the colour. */
  function TileRow(r: RasterizedImage, line: nat, column: nat, y: nat): (row: seq<byte>)
    requires ValidCell(r, line, column) && y < AvailableHeight(r, line)
    ensures |row| == RowLength(r)
  {
    ImageRow(r, line, column, y) + Fill(r.defaultColor, r.cellWidth - AvailableWidth(r, column))
  }

  /** The first `n` rows of the tile, one sequence of bytes per row. */
  function TileRows(r: RasterizedImage, line: nat, column: nat, n: nat): (rows: seq<seq<byte>>)
    requires ValidCell(r, line, column) && n <= AvailableHeight(r, line)
    ensures |rows| == n
  {
    if n == 0 then [] else TileRows(r, line, column, n - 1) + [TileRow(r, line, column, n - 1)]
  }

  /** Row `y` of the first `n` rows is the tile's row `y`. */
  lemma {:induction false} TileRowsIndex(r: RasterizedImage, line: nat, column: nat, n: nat, y: nat)
    requires ValidCell(r, line, column) && y < n <= AvailableHeight(r, line)
    ensures TileRows(r, line, column, n)[y] == TileRow(r, line, column, y)
  {
    if y < n - 1 {
      TileRowsIndex(r, line, column, n - 1, y);
    }
  }

  /** Every one of the first `n` rows has one row's bytes. */
  lemma TileRowsLengths(r: RasterizedImage, line: nat, column: nat, n: nat)
    requires ValidCell(r, line, column) && n <= AvailableHeight(r, line)
    ensures forall y :: 0 <= y < n ==> |TileRows(r, line, column, n)[y]| == RowLength(r)
  {
    forall y | 0 <= y < n
      ensures |TileRows(r, line, column, n)[y]| == RowLength(r)
    {
      TileRowsIndex(r, line, column, n, y);
    }
  }

  /** The rows written one after the other. */
  function Flatten(rows: seq<seq<byte>>): seq<byte> {
    if rows == [] then [] else Flatten(rows[..|rows| - 1]) + rows[|rows| - 1]
  }

  /** The rows the image covers never exceed the cell's area. */
  lemma CoveredPixels(r: RasterizedImage, line: nat)
    requires 0 <= AvailableHeight(r, line)
    ensures Mul(AvailableHeight(r, line), r.cellWidth) <= Mul(r.cellHeight, r.cellWidth)
  {
    MulMonotone(AvailableHeight(r, line), r.cellHeight, r.cellWidth);
  }

  /** The pixels after the covered rows up to the cell's area. */
  function BottomPixels(r: RasterizedImage, line: nat): nat
    requires 0 <= AvailableHeight(r, line)
  {
    CoveredPixels(r, line);
    Mul(r.cellHeight, r.cellWidth) - Mul(AvailableHeight(r, line), r.cellWidth)
  }

  /** The whole tile: the rows the image covers, then the colour up to the cell's area. */
  function Tile(r: RasterizedImage, line: nat, column: nat): seq<byte>
    requires ValidCell(r, line, column)
  {
    Flatten(TileRows(r, line, column, AvailableHeight(r, line))) + Fill(r.defaultColor, BottomPixels(r, line))
  }

  // ---------------------------------------------------------------------------
  // Layout of the rows
  // ---------------------------------------------------------------------------

  /** The covered rows and the bottom fill together make up one cell's bytes. */
  lemma CellArea(r: RasterizedImage, line: nat)
    requires 0 <= AvailableHeight(r, line)
    ensures Mul(AvailableHeight(r, line), RowLength(r)) + 4 * BottomPixels(r, line) == TileLength(r)
    ensures Mul(r.cellHeight, RowLength(r)) == TileLength(r)
  {
    MulScale(AvailableHeight(r, line), r.cellWidth);
    MulScale(r.cellHeight, r.cellWidth);
  }

  /** Row `y` of the covered rows ends inside the tile. */
  lemma RowFits(r: RasterizedImage, line: nat, y: nat)
    requires y < AvailableHeight(r, line)
    ensures Mul(y + 1, RowLength(r)) == Mul(y, RowLength(r)) + RowLength(r)
    ensures Mul(y + 1, RowLength(r)) <= TileLength(r)
  {
    MulMonotone(y + 1, r.cellHeight, RowLength(r));
    CellArea(r, line);
  }

  /** Rows of equal length flatten to that many times the length. */
  lemma {:induction false} FlattenLength(rows: seq<seq<byte>>, len: nat)
    requires forall y :: 0 <= y < |rows| ==> |rows[y]| == len
    ensures |Flatten(rows)| == Mul(|rows|, len)
  {
    if rows != [] {
      FlattenLength(rows[..|rows| - 1], len);
    }
  }

  /** Appending a row appends its bytes. */
  lemma FlattenSnoc(rows: seq<seq<byte>>, row: seq<byte>)
    ensures Flatten(rows + [row]) == Flatten(rows) + row
  {
    assert (rows + [row])[..|rows|] == rows;
  }

  /** Row `y` of rows of `len` bytes starts at byte `y * len` of the flattened rows. */
  lemma {:induction false} FlattenRow(rows: seq<seq<byte>>, len: nat, y: nat)
    requires forall i :: 0 <= i < |rows| ==> |rows[i]| == len
    requires y < |rows|
    ensures Mul(y + 1, len) <= |Flatten(rows)|
    ensures Flatten(rows)[Mul(y, len)..Mul(y + 1, len)] == rows[y]
  {
    var prefix := rows[..|rows| - 1];
    FlattenLength(prefix, len);
    FlattenLength(rows, len);
    assert Mul(y + 1, len) == Mul(y, len) + len;
    if y < |rows| - 1 {
      FlattenRow(prefix, len, y);
      MulMonotone(y + 1, |prefix|, len);
      assert Flatten(rows)[Mul(y, len)..Mul(y + 1, len)] == Flatten(prefix)[Mul(y, len)..Mul(y + 1, len)];
    } else {
      assert Mul(y, len) == |Flatten(prefix)|;
    }
  }

  /**
   * The covered rows up to `y + 1` are the rows up to `y` and then row `y`:
   * the image's bytes from the row's offset and the default colour.
   */
  lemma TileRowsStep(r: RasterizedImage, line: nat, column: nat, rows: seq<seq<byte>>, y: nat,
                     done: seq<byte>, start: nat, count: nat, n: nat)
    requires ValidCell(r, line, column) && y < AvailableHeight(r, line)
    requires rows == TileRows(r, line, column, AvailableHeight(r, line))
    requires done == Flatten(rows[..y])
    requires start == StartOffset(r, line, column, y) && count == AvailableWidth(r, column) * 4
    requires n == r.cellWidth - AvailableWidth(r, column)
    ensures start + count <= |r.image.data|
    ensures Flatten(rows[..y + 1]) == done + (r.image.data[start..start + count] + Fill(r.defaultColor, n))
  {
    RowInImage(r, line, column, y);
    TileRowsIndex(r, line, column, AvailableHeight(r, line), y);
    FlattenSnoc(rows[..y], rows[y]);
    assert rows[..y + 1] == rows[..y] + [rows[y]];
  }

  // ---------------------------------------------------------------------------
  // What a tile holds
  // ---------------------------------------------------------------------------

  /** The tile has exactly one cell's bytes. */
  lemma TileLengthIsCellArea(r: RasterizedImage, line: nat, column: nat)
    requires ValidCell(r, line, column)
    ensures |Tile(r, line, column)| == TileLength(r)
  {
    TileRowsLengths(r, line, column, AvailableHeight(r, line));
    FlattenLength(TileRows(r, line, column, AvailableHeight(r, line)), RowLength(r));
    CellArea(r, line);
  }

  /**
   * Row `y` of the tile, for a row the image covers: its first availableWidth
   * pixels are the image's bytes from that row's offset and the rest of the row
   * is the default colour.
   */
  lemma TileRowRegion(r: RasterizedImage, line: nat, column: nat, y: nat)
    requires ValidCell(r, line, column) && y < AvailableHeight(r, line)
    ensures Mul(y + 1, RowLength(r)) <= |Tile(r, line, column)|
    ensures Tile(r, line, column)[Mul(y, RowLength(r))..Mul(y + 1, RowLength(r))][..AvailableWidth(r, column) * 4]
      == ImageRow(r, line, column, y)
    ensures Tile(r, line, column)[Mul(y, RowLength(r))..Mul(y + 1, RowLength(r))][AvailableWidth(r, column) * 4..]
      == Fill(r.defaultColor, r.cellWidth - AvailableWidth(r, column))
  {
    var rows := TileRows(r, line, column, AvailableHeight(r, line));
    var len := RowLength(r);
    TileRowsLengths(r, line, column, AvailableHeight(r, line));
    TileRowsIndex(r, line, column, AvailableHeight(r, line), y);
    FlattenRow(rows, len, y);
    var tile := Tile(r, line, column);
    assert tile[Mul(y, len)..Mul(y + 1, len)] == Flatten(rows)[Mul(y, len)..Mul(y + 1, len)];
  }

  /** Everything after the rows the image covers is the default colour. */
  lemma TileBottom(r: RasterizedImage, line: nat, column: nat)
    requires ValidCell(r, line, column)
    ensures Mul(AvailableHeight(r, line), RowLength(r)) <= |Tile(r, line, column)|
    ensures Tile(r, line, column)[Mul(AvailableHeight(r, line), RowLength(r))..]
      == Fill(r.defaultColor, BottomPixels(r, line))
  {
    var rows := TileRows(r, line, column, AvailableHeight(r, line));
    TileRowsLengths(r, line, column, AvailableHeight(r, line));
    FlattenLength(rows, RowLength(r));
    var bottom := Fill(r.defaultColor, BottomPixels(r, line));
    assert (Flatten(rows) + bottom)[|Flatten(rows)|..] == bottom;
  }

  /** Every byte of a fill is the matching channel of the colour. */
  lemma {:induction false} FillIsColor(c: RGBAColor, n: nat)
    ensures forall k :: 0 <= k < |Fill(c, n)| ==> Fill(c, n)[k] == ColorBytes(c)[k % 4]
  {
    if n > 0 {
      FillIsColor(c, n - 1);
    }
  }

  // ---------------------------------------------------------------------------
  // RasterizedImage::fragment
  // ---------------------------------------------------------------------------

  /**
   * fragment: a fresh buffer of one cell's RGBA bytes, filled row by row
   * through an advancing write position `target`.
   */
  method Fragment(r: RasterizedImage, line: nat, column: nat) returns (fragData: array<byte>)
    requires ValidCell(r, line, column)
    ensures fresh(fragData)
    ensures fragData[..] == Tile(r, line, column)
  {
    var cellWidth, cellHeight := r.cellWidth, r.cellHeight;
    MulIsProduct(cellHeight, cellWidth);
    fragData := new byte[cellHeight * cellWidth * 4];
    var target := CopyRows(fragData, r, line, column);
    // fill the gap at the bottom
    CellArea(r, line);
    FillPixels(fragData, target, r.defaultColor, BottomPixels(r, line));
    assert fragData[..] == fragData[..target + 4 * BottomPixels(r, line)];
  }

  /** fragment's row loop: the rows the image covers, written from the start of the buffer. */
  method CopyRows(fragData: array<byte>, r: RasterizedImage, line: nat, column: nat) returns (target: nat)
    requires ValidCell(r, line, column) && fragData.Length == TileLength(r)
    modifies fragData
    ensures target == Mul(AvailableHeight(r, line), RowLength(r)) <= fragData.Length
    ensures fragData[..target] == Flatten(TileRows(r, line, column, AvailableHeight(r, line)))
  {
    var availableWidth := AvailableWidth(r, column);
    var availableHeight := AvailableHeight(r, line);
    ghost var rows := TileRows(r, line, column, availableHeight);
    target := 0;
    var y := 0;
    while y < availableHeight
      invariant 0 <= y <= availableHeight
      invariant target == Mul(y, RowLength(r)) <= fragData.Length
      invariant fragData[..target] == Flatten(rows[..y])
    {
      RowFits(r, line, y);
      var startOffset := StartOffset(r, line, column, y);
      ghost var done := Flatten(rows[..y]);
      TileRowsStep(r, line, column, rows, y, done, startOffset, availableWidth * 4, r.cellWidth - availableWidth);
      target := CopyRow(fragData, target, done, r.image.data, startOffset,
                        availableWidth * 4, r.defaultColor, r.cellWidth - availableWidth);
      y := y + 1;
    }
    assert rows[..y] == rows;
  }

  /**
   * One pass of fragment's row loop: `count` bytes of the image from `start`,
   * then `n` pixels of the default colour up to the cell's right edge.
   */
  method CopyRow(fragData: array<byte>, target: nat, ghost prefix: seq<byte>,
                 source: seq<byte>, start: nat, count: nat, c: RGBAColor, n: nat)
      returns (next: nat)
    requires target + count + 4 * n <= fragData.Length && start + count <= |source|
    requires fragData[..target] == prefix
    modifies fragData
    ensures next == target + count + 4 * n
    ensures fragData[..next] == prefix + (source[start..start + count] + Fill(c, n))
  {
    CopyBytes(fragData, target, source, start, count);
    next := target + count;
    // fill the gap on the right
    FillPixels(fragData, next, c, n);
    next := next + 4 * n;
    AppendAssoc(prefix, source[start..start + count], Fill(c, n));
  }

  lemma AppendAssoc(a: seq<byte>, b: seq<byte>, c: seq<byte>)
    ensures a + b + c == a + (b + c)
  {
  }

  /** std::copy of `count` bytes from `source` at `start` to `fragData` at `target`. */
  method CopyBytes(fragData: array<byte>, target: nat, source: seq<byte>, start: nat, count: nat)
    requires target + count <= fragData.Length && start + count <= |source|
    modifies fragData
    ensures fragData[..target + count] == old(fragData[..target]) + source[start..start + count]
  {
    var i := 0;
    while i < count
      invariant 0 <= i <= count
      invariant fragData[..target + i] == old(fragData[..target]) + source[start..start + i]
    {
      fragData[target + i] := source[start + i];
      assert source[start..start + i + 1] == source[start..start + i] + [source[start + i]];
      assert fragData[..target + i + 1] == fragData[..target + i] + [fragData[target + i]];
      i := i + 1;
    }
  }

  /** Writes `n` pixels of the colour from `target` on, the fill loops of fragment. */
  method FillPixels(fragData: array<byte>, target: nat, c: RGBAColor, n: nat)
    requires target + 4 * n <= fragData.Length
    modifies fragData
    ensures fragData[..target + 4 * n] == old(fragData[..target]) + Fill(c, n)
  {
    var x := 0;
    while x < n
      invariant 0 <= x <= n
      invariant fragData[..target + 4 * x] == old(fragData[..target]) + Fill(c, x)
    {
      var t := target + 4 * x;
      ghost var before := fragData[..t];
      fragData[t] := c.red;
      fragData[t + 1] := c.green;
      fragData[t + 2] := c.blue;
      fragData[t + 3] := c.alpha;
      assert fragData[..t] == before;
      assert fragData[..t + 4] == before + ColorBytes(c);
      x := x + 1;
    }
  }

  // ---------------------------------------------------------------------------
  // ImagePool::create
  // ---------------------------------------------------------------------------

  /** ImagePool: hands out image ids in increasing order. */
  class ImagePool {
    var nextImageId: nat
    /** The ids handed out so far. */
    ghost var issued: set<nat>

    /** Every id handed out lies below the next one. */
    ghost predicate Valid()
      reads this
    {
      forall id :: id in issued ==> id < nextImageId
    }

    /** ImagePool(onImageRemove, nextImageId). */
    constructor (firstImageId: nat)
      ensures Valid() && nextImageId == firstImageId && issued == {}
    {
      nextImageId := firstImageId;
      issued := {};
    }

    /** create: the new image takes the current id and the counter moves on by one. */
    method Create(format: ImageFormat, width: nat, height: nat, data: seq<byte>) returns (image: Image)
      requires Valid()
      modifies this
      ensures Valid()
      ensures image == Image(old(nextImageId), format, data, width, height)
      ensures nextImageId == old(nextImageId) + 1
      ensures image.id !in old(issued) && issued == old(issued) + {image.id}
    {
      var id := nextImageId;
      nextImageId := nextImageId + 1;
      issued := issued + {id};
      image := Image(id, format, data, width, height);
    }
  }

  /** Two images created one after the other by the same pool carry different ids. */
  method CreateTwice(pool: ImagePool, data: seq<byte>) returns (a: Image, b: Image)
    requires pool.Valid()
    modifies pool
    ensures a.id != b.id && b.id == a.id + 1
  {
    a := pool.Create(RGBA, 1, 1, data);
    b := pool.Create(RGBA, 1, 1, data);
  }
}
