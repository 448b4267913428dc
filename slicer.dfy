/**
 * Fixed-grid slicing of a sprite sheet (`slice_sheet_to_images`).
 *
 * The sheet image and the PIL pipeline crop -> convert('RGB') -> save(format='BMP')
 * are abstracted as one total function `sheet: Rect -> seq<Byte>` that gives the bytes of
 * the BMP file encoding the crop of that rectangle.  A frame keeps the rectangle it was cut
 * from (standing for the cropped image) and its payload.
 */
module Slicer {
  import opened Base

  /** A crop rectangle: origin (x, y), width w and height h; PIL's box is (x, y, x + w, y + h). */
  datatype Rect = Rect(x: int, y: int, w: int, h: int)
  {
    function Right(): int { x + w }
    function Bottom(): int { y + h }
  }

  /** One entry of the slicer's output: the cropped region (`img`) and its bitmap payload (`dib`). */
  datatype Frame = Frame(box: Rect, dib: seq<Byte>)

  /** The slicer's parameters, in the order of the source's signature. */
  datatype GridSpec = GridSpec(spriteW: int, spriteH: int, startX: int, startY: int,
                               gapX: int, gapY: int, rows: int, cols: int)

  /** A grid position (row, column). */
  datatype Cell = Cell(row: int, col: int)

  /** Size of the BMP file header that is cut off to leave the device-independent bitmap. */
  const BmpFileHeaderSize: nat := 14

  /** The row in which both layout exceptions sit, and after which the grid stops. */
  const LastRow: int := 3
  /** In the last row, the column at which the row stops early. */
  const StopCol: int := 5
  /** In the last row, the column whose sprite has the overridden size. */
  const ResizedCol: int := 4
  const ResizedW: int := 49
  const ResizedH: int := 74

  /** The fixed extra rectangle appended after the grid. */
  const ExtraBox: Rect := Rect(141, 311, 44, 39)

  /** The bytes after the 14-byte BMP file header; empty when the data is no longer than that. */
  function DropFileHeader(data: seq<Byte>): (dib: seq<Byte>)
    ensures |data| >= BmpFileHeaderSize ==> |dib| == |data| - BmpFileHeaderSize && data == data[..BmpFileHeaderSize] + dib
    ensures |data| < BmpFileHeaderSize ==> dib == []
  {
    if |data| < BmpFileHeaderSize then [] else data[BmpFileHeaderSize..]
  }

  /** Crop `box` out of the sheet, encode it as a BMP and keep the payload. */
  function CutFrame(sheet: Rect -> seq<Byte>, box: Rect): Frame
  {
    Frame(box, DropFileHeader(sheet(box)))
  }

  /** The rectangle the loop crops for cell `c`. */
  function CellBox(p: GridSpec, c: Cell): Rect
  {
    var w := if c.row == LastRow && c.col == ResizedCol then ResizedW else p.spriteW;
    var h := if c.row == LastRow && c.col == ResizedCol then ResizedH else p.spriteH;
    Rect(p.startX + c.col * (p.spriteW + p.gapX), p.startY + c.row * (p.spriteH + p.gapY), w, h)
  }

  /** How many columns the inner loop handles in `row`: every column below `cols`, but at most 5 in row 3. */
  function RowLength(row: int, cols: int): nat
  {
    var all := if cols < 0 then 0 else cols;
    if row == LastRow && all > StopCol then StopCol else all
  }

  /** How many rows the outer loop handles: every row below `rows`, but none after row 3. */
  function GridRows(rows: int): nat
  {
    if rows < 0 then 0 else if rows > LastRow + 1 then LastRow + 1 else rows
  }

  /** The first `n` cells of `row`, left to right. */
  function RowCells(row: int, n: nat): (cells: seq<Cell>)
    ensures |cells| == n
  {
    seq(n, c => Cell(row, c))
  }

  /** The cells of rows 0 .. k-1, row-major. */
  function GridCells(k: nat, cols: int): seq<Cell>
  {
    if k == 0 then [] else GridCells(k - 1, cols) + RowCells(k - 1, RowLength(k - 1, cols))
  }

  /** The cells that the slicer turns into frames, in output order. */
  function SliceCells(p: GridSpec): seq<Cell>
  {
    GridCells(GridRows(p.rows), p.cols)
  }

  /** The frames cut for `cells`, in the same order. */
  function FramesOf(sheet: Rect -> seq<Byte>, p: GridSpec, cells: seq<Cell>): (frames: seq<Frame>)
    ensures |frames| == |cells|
  {
    seq(|cells|, i requires 0 <= i < |cells| => CutFrame(sheet, CellBox(p, cells[i])))
  }

  /** What `slice_sheet_to_images` returns: the grid frames, then the extra frame. */
  function SliceSpec(sheet: Rect -> seq<Byte>, p: GridSpec): seq<Frame>
  {
    FramesOf(sheet, p, SliceCells(p)) + [CutFrame(sheet, ExtraBox)]
  }

  /** `slice_sheet_to_images`: nested row/column loops with the two early exits, then the extra frame. */
  method SliceSheetToImages(sheet: Rect -> seq<Byte>, p: GridSpec) returns (frames: seq<Frame>)
    ensures frames == SliceSpec(sheet, p)
  {
    frames := [];
    var stepX := p.spriteW + p.gapX;
    var stepY := p.spriteH + p.gapY;
    var row := 0;
    while row < p.rows
      invariant 0 <= row <= LastRow
      invariant row == 0 || row <= p.rows
      invariant frames == FramesOf(sheet, p, GridCells(row, p.cols))
    {
      var col := 0;
      while col < p.cols
        invariant 0 <= col <= RowLength(row, p.cols)
        invariant frames == FramesOf(sheet, p, GridCells(row, p.cols) + RowCells(row, col))
      {
        if row == LastRow && col == StopCol {
          break;
        }
        var w, h;
        if row == LastRow && col == ResizedCol {
          w, h := ResizedW, ResizedH;
        } else {
          w, h := p.spriteW, p.spriteH;
        }
        var x := p.startX + col * stepX;
        var y := p.startY + row * stepY;
        var box := Rect(x, y, w, h);
        var data := sheet(box);
        var dib := DropFileHeader(data);
        ghost var before := GridCells(row, p.cols) + RowCells(row, col);
        assert before + [Cell(row, col)] == GridCells(row, p.cols) + RowCells(row, col + 1);
        assert box == CellBox(p, Cell(row, col));
        frames := frames + [Frame(box, dib)];
        assert frames == FramesOf(sheet, p, before + [Cell(row, col)]);
        col := col + 1;
      }
      assert col == RowLength(row, p.cols);
      assert GridCells(row + 1, p.cols) == GridCells(row, p.cols) + RowCells(row, col);
      if row == LastRow {
        break;
      }
      row := row + 1;
    }
    var data := sheet(ExtraBox);
    frames := frames + [Frame(ExtraBox, DropFileHeader(data))];
  }

  // ---------------------------------------------------------------------------
  // Properties of the slicer's output, stated independently of the loops.
  // ---------------------------------------------------------------------------

  /** The cells the slicer turns into frames: rows below `rows` and below 4, columns below `cols`,
      except columns 5 and up of row 3. */
  predicate Produced(rows: int, cols: int, c: Cell)
  {
    0 <= c.row < rows && c.row <= LastRow && 0 <= c.col < cols && !(c.row == LastRow && c.col >= StopCol)
  }

  /** Row-major order: `a` comes strictly before `b`. */
  predicate RowMajorBefore(a: Cell, b: Cell)
  {
    a.row < b.row || (a.row == b.row && a.col < b.col)
  }

  /** Number of grid frames as a closed formula: 3 full rows and a 4th of at most 5 columns. */
  function GridCount(rows: int, cols: int): nat
  {
    var r := GridRows(rows);
    var c := if cols < 0 then 0 else cols;
    if r <= LastRow then r * c else LastRow * c + (if c < StopCol then c else StopCol)
  }

  lemma {:induction false} GridCellsMembership(k: nat, cols: int, c: Cell)
    requires k <= LastRow + 1
    ensures c in GridCells(k, cols) <==> 0 <= c.row < k && Produced(LastRow + 1, cols, c)
  {
    if k > 0 {
      GridCellsMembership(k - 1, cols, c);
      var row := RowCells(k - 1, RowLength(k - 1, cols));
      assert GridCells(k, cols) == GridCells(k - 1, cols) + row;
      if c.row == k - 1 && Produced(LastRow + 1, cols, c) {
        assert row[c.col] == c;
      }
    }
  }

  /** The slicer emits a grid frame for cell `c` exactly when its loops reach `c`. */
  lemma SliceCellsExactly(p: GridSpec, c: Cell)
    ensures c in SliceCells(p) <==> Produced(p.rows, p.cols, c)
  {
    GridCellsMembership(GridRows(p.rows), p.cols, c);
  }

  /** No frame is cut for a column from 5 on in row 3, nor for any row from 4 on. */
  lemma CellsNeverProduced(p: GridSpec, c: Cell)
    requires c.row >= LastRow + 1 || (c.row == LastRow && c.col >= StopCol)
    ensures c !in SliceCells(p)
  {
    SliceCellsExactly(p, c);
  }

  lemma {:induction false} GridCellsRowMajor(k: nat, cols: int)
    requires k <= LastRow + 1
    ensures forall i, j :: 0 <= i < j < |GridCells(k, cols)| ==>
              RowMajorBefore(GridCells(k, cols)[i], GridCells(k, cols)[j])
  {
    if k > 0 {
      GridCellsRowMajor(k - 1, cols);
      var prev := GridCells(k - 1, cols);
      var row := RowCells(k - 1, RowLength(k - 1, cols));
      assert GridCells(k, cols) == prev + row;
      forall i | 0 <= i < |prev|
        ensures prev[i].row < k - 1
      {
        GridCellsMembership(k - 1, cols, prev[i]);
      }
    }
  }

  /** The grid frames come out in row-major order, each cell at most once. */
  lemma SliceCellsRowMajor(p: GridSpec)
    ensures forall i, j :: 0 <= i < j < |SliceCells(p)| ==> RowMajorBefore(SliceCells(p)[i], SliceCells(p)[j])
  {
    GridCellsRowMajor(GridRows(p.rows), p.cols);
  }

  lemma {:induction false} GridCellsCount(k: nat, cols: int)
    requires k <= LastRow + 1
    ensures var c := if cols < 0 then 0 else cols;
            |GridCells(k, cols)| == if k <= LastRow then k * c else LastRow * c + (if c < StopCol then c else StopCol)
  {
    if k > 0 {
      GridCellsCount(k - 1, cols);
    }
  }

  lemma {:induction false} GridCellsIndex(k: nat, cols: int, c: Cell)
    requires k <= LastRow + 1
    requires 0 <= c.row < k && Produced(LastRow + 1, cols, c)
    ensures c.row * cols + c.col < |GridCells(k, cols)|
    ensures GridCells(k, cols)[c.row * cols + c.col] == c
  {
    var prev := GridCells(k - 1, cols);
    var row := RowCells(k - 1, RowLength(k - 1, cols));
    assert GridCells(k, cols) == prev + row;
    if c.row == k - 1 {
      GridCellsCount(k - 1, cols);
      assert |prev| == c.row * cols;
    } else {
      GridCellsIndex(k - 1, cols, c);
    }
  }

  /** The slicer returns the grid frames plus one: G + 1 frames, G as in `GridCount`. */
  lemma SliceFrameCount(sheet: Rect -> seq<Byte>, p: GridSpec)
    ensures |SliceSpec(sheet, p)| == GridCount(p.rows, p.cols) + 1
  {
    GridCellsCount(GridRows(p.rows), p.cols);
  }

  /** With the default 4 x 6 layout the slicer returns 6 + 6 + 6 + 5 grid frames and the extra one. */
  lemma DefaultLayoutFrameCount(sheet: Rect -> seq<Byte>, p: GridSpec)
    requires p.rows == 4 && p.cols == 6
    ensures |SliceSpec(sheet, p)| == 24
  {
  }

  /** The grid frame of a produced cell (r, c) sits at index r * cols + c; its origin is
      (start_x + c * (sprite_w + gap_x), start_y + r * (sprite_h + gap_y)) and its size is
      49 x 74 for cell (3, 4) whatever the sprite size, sprite_w x sprite_h otherwise. */
  lemma GridFrameAt(sheet: Rect -> seq<Byte>, p: GridSpec, c: Cell)
    requires Produced(p.rows, p.cols, c)
    ensures c.row * p.cols + c.col < |SliceSpec(sheet, p)| - 1
    ensures var f := SliceSpec(sheet, p)[c.row * p.cols + c.col];
            f.box.x == p.startX + c.col * (p.spriteW + p.gapX) &&
            f.box.y == p.startY + c.row * (p.spriteH + p.gapY) &&
            (c.row == 3 && c.col == 4 ==> f.box.w == 49 && f.box.h == 74) &&
            (!(c.row == 3 && c.col == 4) ==> f.box.w == p.spriteW && f.box.h == p.spriteH)
  {
    GridCellsIndex(GridRows(p.rows), p.cols, c);
  }

  /** The last frame is always the rectangle (141, 311)-(185, 350), whatever the grid parameters. */
  lemma FinalFrameFixed(sheet: Rect -> seq<Byte>, p: GridSpec, q: GridSpec)
    ensures var s := SliceSpec(sheet, p);
            var last := s[|s| - 1];
            last.box.x == 141 && last.box.y == 311 && last.box.Right() == 185 && last.box.Bottom() == 350 &&
            last == SliceSpec(sheet, q)[|SliceSpec(sheet, q)| - 1]
  {
  }

  /** Every payload is the encoder's output with its first 14 bytes removed. */
  lemma PayloadsDropHeader(sheet: Rect -> seq<Byte>, p: GridSpec)
    ensures forall f :: f in SliceSpec(sheet, p) ==>
              (|sheet(f.box)| >= 14 ==> sheet(f.box) == sheet(f.box)[..14] + f.dib) &&
              (|sheet(f.box)| < 14 ==> f.dib == [])
  {
  }
}
