/**
 * `MapTile`: a section of terrain made of a grid of 32 × 32 graphics cells
 * and a height grid at twice the resolution (16 × 16 cells), both covering
 * the same area. Bitmaps are identified by value: the shared blank square
 * every fresh cell points at is one constant.
 */
module MapTiles {
  import opened Grids

  const TileWidth: int := 32
  const TileHeight: int := 32
  /** The side of a height cell: half a graphics cell. */
  const AttrWidth: int := TileWidth / 2
  const AttrHeight: int := TileHeight / 2

  /** A height cell is exactly half a graphics cell on each side, so a graphics cell covers 2 × 2 height cells. */
  lemma AttrIsHalfTile()
    ensures AttrWidth == 16 && AttrHeight == 16
    ensures 2 * AttrWidth == TileWidth && 2 * AttrHeight == TileHeight
  {
  }

  /** What a graphics cell refers to: nothing (a fresh grid's default), the shared blank square, or a graphic. */
  datatype Bitmap = NoBitmap | DefaultSquare | Graphic(id: nat)

  /** The region of the height grid that corresponds to a region of the graphics grid. */
  function Doubled(r: Region): (d: Region)
    ensures d.w == 2 * r.w && d.h == 2 * r.h
  {
    Region(r.sx * 2, r.sy * 2, r.dx * 2, r.dy * 2, r.w * 2, r.h * 2)
  }

  /** A region that fits the graphics grids fits the height grids once doubled. */
  lemma DoubledFits(r: Region, srcWidth: nat, srcHeight: nat, dstWidth: nat, dstHeight: nat)
    requires Fits(r, srcWidth, srcHeight, dstWidth, dstHeight)
    ensures Fits(Doubled(r), 2 * srcWidth, 2 * srcHeight, 2 * dstWidth, 2 * dstHeight)
  {
  }

  /**
   * The four height cells under graphics cell `(x, y)` are overwritten by
   * the doubled merge exactly when the graphics cell is, and each takes the
   * height at the same corner of the source graphics cell.
   */
  lemma HeightBlockFollowsTile(r: Region, x: int, y: int, i: int, j: int)
    requires 0 <= i < 2 && 0 <= j < 2
    ensures InTarget(Doubled(r), 2 * x + i, 2 * y + j) <==> InTarget(r, x, y)
    ensures FromX(Doubled(r), 2 * x + i) == 2 * FromX(r, x) + i
    ensures FromY(Doubled(r), 2 * y + j) == 2 * FromY(r, y) + j
  {
  }

  class MapTile {
    const tileGrid: Grid<Bitmap>
    const heightGrid: Grid<int>

    /** The height grid is always twice as wide and twice as high as the graphics grid. */
    ghost predicate Valid()
      reads this, tileGrid, heightGrid
    {
      tileGrid.Valid() && heightGrid.Valid()
      && heightGrid.width == 2 * tileGrid.width && heightGrid.height == 2 * tileGrid.height
    }

    /** A `width × height` section: every graphics cell is the blank square, every height 0. */
    constructor (width: nat, height: nat)
      ensures Valid() && fresh(tileGrid) && fresh(tileGrid.cells) && fresh(heightGrid) && fresh(heightGrid.cells)
      ensures tileGrid.width == width && tileGrid.height == height
      ensures forall x, y :: 0 <= x < width && 0 <= y < height ==> tileGrid.Get(x, y) == DefaultSquare
      ensures forall x, y :: 0 <= x < 2 * width && 0 <= y < 2 * height ==> heightGrid.Get(x, y) == 0
    {
      tileGrid := new Grid<Bitmap>(width, height, NoBitmap);
      heightGrid := new Grid<int>(width * 2, height * 2, 0);
      new;
      forall x, y | 0 <= x < 2 * width && 0 <= y < 2 * height ensures heightGrid.Get(x, y) == 0 {
        CellIndexInRange(2 * width, 2 * height, x, y);
      }
      var y := 0;
      while y < height
        invariant 0 <= y <= height && Valid()
        invariant forall x', y' :: 0 <= x' < width && 0 <= y' < y ==> tileGrid.Get(x', y') == DefaultSquare
        invariant forall x', y' :: 0 <= x' < 2 * width && 0 <= y' < 2 * height ==> heightGrid.Get(x', y') == 0
      {
        var x := 0;
        while x < width
          invariant 0 <= x <= width && Valid()
          invariant forall x', y' :: 0 <= x' < width && 0 <= y' < y ==> tileGrid.Get(x', y') == DefaultSquare
          invariant forall x' :: 0 <= x' < x ==> tileGrid.Get(x', y) == DefaultSquare
          invariant forall x', y' :: 0 <= x' < 2 * width && 0 <= y' < 2 * height ==> heightGrid.Get(x', y') == 0
        {
          tileGrid.Set(x, y, DefaultSquare);
          x := x + 1;
        }
        y := y + 1;
      }
    }

    /**
     * `Merge(other, sourceX, sourceY, destX, destY, width, height)`: the
     * graphics rectangle is merged as given and the height rectangle with
     * every coordinate and size doubled.
     */
    method Merge(other: MapTile, sourceX: int, sourceY: int, destX: int, destY: int, width: int, height: int)
      requires Valid() && other.Valid()
      requires Fits(Region(sourceX, sourceY, destX, destY, width, height),
                    other.tileGrid.width, other.tileGrid.height, tileGrid.width, tileGrid.height)
      modifies tileGrid.cells, heightGrid.cells
      ensures Valid()
      ensures var r := Region(sourceX, sourceY, destX, destY, width, height);
        forall x, y :: 0 <= x < tileGrid.width && 0 <= y < tileGrid.height ==>
          tileGrid.Get(x, y) == if InTarget(r, x, y) then old(other.tileGrid.Get(FromX(r, x), FromY(r, y))) else old(tileGrid.Get(x, y))
      ensures var d := Doubled(Region(sourceX, sourceY, destX, destY, width, height));
        forall x, y :: 0 <= x < heightGrid.width && 0 <= y < heightGrid.height ==>
          heightGrid.Get(x, y) == if InTarget(d, x, y) then old(other.heightGrid.Get(FromX(d, x), FromY(d, y))) else old(heightGrid.Get(x, y))
    {
      var r := Region(sourceX, sourceY, destX, destY, width, height);
      DoubledFits(r, other.tileGrid.width, other.tileGrid.height, tileGrid.width, tileGrid.height);
      tileGrid.Merge(other.tileGrid, r);
      heightGrid.Merge(other.heightGrid, Doubled(r));
    }

    /** `Merge(other, x, y)`: the whole of `other` placed with its corner at `(x, y)`. */
    method MergeAll(other: MapTile, x: int, y: int)
      requires Valid() && other.Valid()
      requires Fits(Region(0, 0, x, y, other.tileGrid.width, other.tileGrid.height),
                    other.tileGrid.width, other.tileGrid.height, tileGrid.width, tileGrid.height)
      modifies tileGrid.cells, heightGrid.cells
      ensures Valid()
      ensures var r := Region(0, 0, x, y, other.tileGrid.width, other.tileGrid.height);
        forall x', y' :: 0 <= x' < tileGrid.width && 0 <= y' < tileGrid.height ==>
          tileGrid.Get(x', y') == if InTarget(r, x', y') then old(other.tileGrid.Get(x' - x, y' - y)) else old(tileGrid.Get(x', y'))
      ensures var d := Doubled(Region(0, 0, x, y, other.tileGrid.width, other.tileGrid.height));
        forall x', y' :: 0 <= x' < heightGrid.width && 0 <= y' < heightGrid.height ==>
          heightGrid.Get(x', y') == if InTarget(d, x', y') then old(other.heightGrid.Get(x' - 2 * x, y' - 2 * y)) else old(heightGrid.Get(x', y'))
    {
      Merge(other, 0, 0, x, y, other.tileGrid.width, other.tileGrid.height);
    }
  }
}
