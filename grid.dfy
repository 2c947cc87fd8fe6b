/**
 * `Grid<T>`: a width × height grid of cells stored row by row in one array.
 *
 * The grid class itself is not part of this model's source; the map tile
 * relies on its construction, cell access and `Merge`. The contract given
 * to `Merge` here is an assumption: it copies a rectangle of another grid
 * (read before anything is written) onto a rectangle of this grid, keeps
 * both grids' dimensions and leaves every other cell as it was.
 */
module Grids {
  import opened Integers

  /** Where cell `(x, y)` of a grid `width` cells wide is stored. */
  function CellIndex(width: nat, x: nat, y: nat): nat {
    y * width + x
  }

  /** The cells of a `width × height` grid are numbered `0 .. width * height - 1`, one per cell. */
  lemma CellIndexInRange(width: nat, height: nat, x: nat, y: nat)
    requires x < width && y < height
    ensures CellIndex(width, x, y) < width * height
    ensures CellIndex(width, x, y) / width == y && CellIndex(width, x, y) % width == x
  {
    assert (y + 1) * width == y * width + width;
    assert y + 1 <= height;
    MulMonotone(y + 1, height, width);
    DivModUnique(y * width + x, width, y, x);
  }

  /** Every number below `width * height` is the index of exactly the cell `(i % width, i / width)`. */
  lemma CellDecode(width: nat, height: nat, i: nat)
    requires i < width * height
    ensures width > 0 && i % width < width && i / width < height
    ensures CellIndex(width, i % width, i / width) == i
  {
    if i / width >= height {
      MulMonotone(height, i / width, width);
    }
  }

  /** A merge: `w × h` cells taken from `(sx, sy)` of the source and put at `(dx, dy)` of the destination. */
  datatype Region = Region(sx: int, sy: int, dx: int, dy: int, w: int, h: int)

  /** Whether destination cell `(x, y)` is overwritten by the merge. */
  predicate InTarget(r: Region, x: int, y: int) {
    r.dx <= x < r.dx + r.w && r.dy <= y < r.dy + r.h
  }

  /** The source cell whose value lands on destination cell `(x, y)`. */
  function FromX(r: Region, x: int): int {
    x - r.dx + r.sx
  }

  function FromY(r: Region, y: int): int {
    y - r.dy + r.sy
  }

  /** Both rectangles of the merge lie inside their grids. */
  predicate Fits(r: Region, srcWidth: nat, srcHeight: nat, dstWidth: nat, dstHeight: nat) {
    0 <= r.sx && 0 <= r.sy && 0 <= r.dx && 0 <= r.dy && 0 <= r.w && 0 <= r.h
    && r.sx + r.w <= srcWidth && r.sy + r.h <= srcHeight
    && r.dx + r.w <= dstWidth && r.dy + r.h <= dstHeight
  }

  /** Every target cell reads from a cell inside the source grid. */
  lemma {:induction false} FitsReadsInside(r: Region, srcWidth: nat, srcHeight: nat, dstWidth: nat, dstHeight: nat, x: int, y: int)
    requires Fits(r, srcWidth, srcHeight, dstWidth, dstHeight) && InTarget(r, x, y)
    ensures 0 <= FromX(r, x) < srcWidth && 0 <= FromY(r, y) < srcHeight
    ensures 0 <= x < dstWidth && 0 <= y < dstHeight
  {
  }

  /** The value cell `i` of a `width × height` grid holds after merging `r` from `src` into `was`. */
  function MergedCell<T>(was: seq<T>, width: nat, height: nat, src: seq<T>, srcWidth: nat, srcHeight: nat, r: Region, i: nat): T
    requires |was| == width * height && |src| == srcWidth * srcHeight && i < |was|
    requires Fits(r, srcWidth, srcHeight, width, height)
  {
    CellDecode(width, height, i);
    var x, y := i % width, i / width;
    if InTarget(r, x, y) then
      FitsReadsInside(r, srcWidth, srcHeight, width, height, x, y);
      CellIndexInRange(srcWidth, srcHeight, FromX(r, x), FromY(r, y));
      src[CellIndex(srcWidth, FromX(r, x), FromY(r, y))]
    else
      was[i]
  }

  class Grid<T> {
    const width: nat
    const height: nat
    const cells: array<T>

    ghost predicate Valid()
      reads this
    {
      cells.Length == width * height
    }

    /** A grid whose every cell holds `fill` (the default value of `T` in the source). */
    constructor (width: nat, height: nat, fill: T)
      ensures Valid() && this.width == width && this.height == height && fresh(cells)
      ensures forall i :: 0 <= i < cells.Length ==> cells[i] == fill
    {
      this.width := width;
      this.height := height;
      cells := new T[width * height](_ => fill);
    }

    function Get(x: nat, y: nat): T
      requires Valid() && x < width && y < height
      reads this, cells
    {
      CellIndexInRange(width, height, x, y);
      cells[CellIndex(width, x, y)]
    }

    /** `grid[x, y] = value`. */
    method Set(x: nat, y: nat, value: T)
      requires Valid() && x < width && y < height
      modifies cells
      ensures Valid() && Get(x, y) == value
      ensures forall x', y' :: 0 <= x' < width && 0 <= y' < height && (x', y') != (x, y) ==> Get(x', y') == old(Get(x', y'))
    {
      CellIndexInRange(width, height, x, y);
      cells[CellIndex(width, x, y)] := value;
      forall x', y' | 0 <= x' < width && 0 <= y' < height && (x', y') != (x, y)
        ensures Get(x', y') == old(Get(x', y'))
      {
        CellIndexInRange(width, height, x', y');
      }
    }

    /** `Merge(source, sx, sy, dx, dy, w, h)`: copies the source rectangle onto this grid. */
    method Merge(source: Grid<T>, r: Region)
      requires Valid() && source.Valid()
      requires Fits(r, source.width, source.height, width, height)
      modifies cells
      ensures Valid()
      ensures forall x, y :: 0 <= x < width && 0 <= y < height ==>
        Get(x, y) == if InTarget(r, x, y) then old(source.Get(FromX(r, x), FromY(r, y))) else old(Get(x, y))
    {
      var src := source.cells[..];
      var was := cells[..];
      forall i | 0 <= i < cells.Length {
        cells[i] := MergedCell(was, width, height, src, source.width, source.height, r, i);
      }
      forall x, y | 0 <= x < width && 0 <= y < height
        ensures Get(x, y) == if InTarget(r, x, y) then old(source.Get(FromX(r, x), FromY(r, y))) else old(Get(x, y))
      {
        CellIndexInRange(width, height, x, y);
        assert old(Get(x, y)) == was[CellIndex(width, x, y)];
        if InTarget(r, x, y) {
          CellIndexInRange(source.width, source.height, FromX(r, x), FromY(r, y));
        }
      }
    }
  }
}
