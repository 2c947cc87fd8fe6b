/**
 * `MapViewViewModel`: the map view's gesture handling (left press, move,
 * release, keys, focus), the sporadic and full bandbox fill, the line point
 * count, and the arithmetic that positions start-position markers and
 * orders feature drawables.
 *
 * The dispatcher is the log `calls` of the requests made of it. What it
 * answers (the placement mode, the active tab, the fill magnitude, the
 * selected feature, the bandbox, the feature each placement produced) and
 * what the items layer answers (is a point inside the selection, what was
 * hit) are parameters. The random draw of the sporadic fill is a function
 * from slot to a number in [0, 1).
 */
module MapView {
  import opened Geometry
  import opened Integers
  import Grids

  datatype FeaturePlacementMode = SelectionMode | LineMode | FillMode | SporadicMode

  /** The modifier keys held during a press: none, exactly Shift, or anything else. */
  datatype Modifiers = NoKeys | ShiftKey | OtherKeys

  datatype ActiveTab = FeaturesTab | OtherTab

  datatype Key = Delete | OtherKey(code: int)

  /** The tag of a drawable that was hit; selecting it is the tag's own request to the dispatcher. */
  datatype ItemTag = SectionTag(index: int) | FeatureTag(id: int) | StartPositionTag(index: int)

  /** Which of the three fill flags a `ref bool` argument names. */
  datatype BandboxFlag = LineBandbox | FillBandbox | SporadicFillBandbox

  /** A feature as the fill code sees it: its name and the size of its image. */
  datatype Feature = Feature(name: string, width: int, height: int)

  /** The requests the view model makes of the dispatcher; feature instances are identified by number. */
  datatype DispatcherCall =
    | ClearSelection
    | StartBandbox(x: int, y: int)
    | GrowBandbox(dx: int, dy: int)
    | TranslateSelection(dx: int, dy: int)
    | CommitBandbox
    | FlushTranslation
    | DeleteSelection
    | SelectItem(tag: ItemTag)
    | DragDropFeature(name: string, x: int, y: int)
    | SelectFeatures(ids: seq<int>)

  // ---------------------------------------------------------------------------
  // Fill arithmetic

  /** The magnitude a full fill uses: every slot is attempted. */
  const FullMagnitude: int := 100

  /**
   * How many features are placed along an extent: one per whole feature
   * size, plus one. For a bandbox of non-negative extent the slots cover it
   * exactly: the last slot starts inside the bandbox and the slots together
   * reach past its far edge.
   */
  function PlaceCount(extent: int, size: int): (r: int)
    requires size > 0
    ensures extent >= 0 ==> r >= 1 && (r - 1) * size <= extent < r * size
  {
    TDivMod(extent, size);
    var q := TDiv(extent, size);
    assert (q + 1) * size == q * size + size;
    q + 1
  }

  /** Whether the draw for slot `(w, h)` lets it be attempted: `draw * 100 <= magnitude`. */
  predicate Drawn(draw: (int, int) -> real, magnitude: int, w: int, h: int) {
    draw(w, h) * 100.0 <= magnitude as real
  }

  /** The slots `(w, 0) .. (w, n - 1)` of column `w` whose draw lets them be attempted, in order. */
  function Column(draw: (int, int) -> real, magnitude: int, w: int, n: int): seq<(int, int)>
    decreases n
  {
    if n <= 0 then [] else Column(draw, magnitude, w, n - 1) + (if Drawn(draw, magnitude, w, n - 1) then [(w, n - 1)] else [])
  }

  /** The slots attempted in columns `0 .. n - 1` of `hCount` rows, column by column. */
  function Attempts(draw: (int, int) -> real, magnitude: int, n: int, hCount: int): seq<(int, int)>
    decreases n
  {
    if n <= 0 then [] else Attempts(draw, magnitude, n - 1, hCount) + Column(draw, magnitude, n - 1, hCount)
  }

  lemma {:induction false} ColumnIsDrawnSlots(draw: (int, int) -> real, magnitude: int, w: int, n: int)
    ensures forall s :: s in Column(draw, magnitude, w, n) <==> s.0 == w && 0 <= s.1 < n && Drawn(draw, magnitude, w, s.1)
    decreases n
  {
    if n > 0 {
      ColumnIsDrawnSlots(draw, magnitude, w, n - 1);
    }
  }

  /**
   * A slot is attempted exactly when it lies in the `n × hCount` grid of
   * slots and its draw is at most `magnitude / 100`.
   */
  lemma {:induction false} AttemptsAreDrawnSlots(draw: (int, int) -> real, magnitude: int, n: int, hCount: int)
    ensures forall s :: s in Attempts(draw, magnitude, n, hCount) <==>
      0 <= s.0 < n && 0 <= s.1 < hCount && Drawn(draw, magnitude, s.0, s.1)
    decreases n
  {
    if n > 0 {
      AttemptsAreDrawnSlots(draw, magnitude, n - 1, hCount);
      ColumnIsDrawnSlots(draw, magnitude, n - 1, hCount);
    }
  }

  /** Every slot of column `w`, in order. */
  function SlotColumn(w: int, n: int): (r: seq<(int, int)>)
    ensures |r| == if n <= 0 then 0 else n
    decreases n
  {
    if n <= 0 then [] else SlotColumn(w, n - 1) + [(w, n - 1)]
  }

  /** Every slot of the `n × hCount` grid, column by column. */
  function Slots(n: int, hCount: int): seq<(int, int)>
    decreases n
  {
    if n <= 0 then [] else Slots(n - 1, hCount) + SlotColumn(n - 1, hCount)
  }

  lemma {:induction false} SlotsCount(n: nat, hCount: nat)
    ensures |Slots(n, hCount)| == n * hCount
  {
    if n > 0 {
      SlotsCount(n - 1, hCount);
      assert n * hCount == (n - 1) * hCount + hCount;
    }
  }

  lemma {:induction false} FullColumn(draw: (int, int) -> real, magnitude: int, w: int, n: int)
    requires magnitude >= FullMagnitude
    requires forall h :: 0 <= h < n ==> 0.0 <= draw(w, h) < 1.0
    ensures Column(draw, magnitude, w, n) == SlotColumn(w, n)
    decreases n
  {
    if n > 0 {
      FullColumn(draw, magnitude, w, n - 1);
      assert draw(w, n - 1) * 100.0 < 100.0;
    }
  }

  /**
   * At magnitude 100 or more, with every draw in [0, 1) as `NextDouble`
   * gives it, every slot is attempted, in order: `wCount × hCount` attempts.
   */
  lemma {:induction false} FullMagnitudeAttemptsEverySlot(draw: (int, int) -> real, magnitude: int, n: nat, hCount: nat)
    requires magnitude >= FullMagnitude
    requires forall w, h :: 0.0 <= draw(w, h) < 1.0
    ensures Attempts(draw, magnitude, n, hCount) == Slots(n, hCount)
    ensures |Attempts(draw, magnitude, n, hCount)| == n * hCount
  {
    if n > 0 {
      FullMagnitudeAttemptsEverySlot(draw, magnitude, n - 1, hCount);
      FullColumn(draw, magnitude, n - 1, hCount);
    }
    SlotsCount(n, hCount);
  }

  /**
   * At magnitude 0 a slot is still attempted when its draw is exactly 0.0,
   * which `NextDouble` can return; those are the only slots attempted.
   */
  lemma ZeroMagnitudeAttemptsOnlyZeroDraws(draw: (int, int) -> real, n: int, hCount: int)
    requires forall w, h :: 0.0 <= draw(w, h) < 1.0
    ensures forall s :: s in Attempts(draw, 0, n, hCount) <==> 0 <= s.0 < n && 0 <= s.1 < hCount && draw(s.0, s.1) == 0.0
  {
    AttemptsAreDrawnSlots(draw, 0, n, hCount);
  }

  /** Where slot `(w, h)` of the bandbox is: `w` feature widths across and `h` feature heights down. */
  function SlotPosition(bandbox: Rect, f: Feature, s: (int, int)): Point {
    Point(bandbox.x + s.0 * f.width, bandbox.y + s.1 * f.height)
  }

  /** The placement requests for `slots`, in order. */
  function Requests(bandbox: Rect, f: Feature, slots: seq<(int, int)>): (r: seq<DispatcherCall>)
    ensures |r| == |slots|
  {
    if slots == [] then []
    else
      var p := SlotPosition(bandbox, f, slots[|slots| - 1]);
      Requests(bandbox, f, slots[..|slots| - 1]) + [DragDropFeature(f.name, p.x, p.y)]
  }

  /** One more slot adds one request, for that slot's position. */
  lemma RequestsSnoc(before: seq<DispatcherCall>, bandbox: Rect, f: Feature, slots: seq<(int, int)>, s: (int, int))
    ensures before + Requests(bandbox, f, slots + [s])
      == before + Requests(bandbox, f, slots) + [DragDropFeature(f.name, SlotPosition(bandbox, f, s).x, SlotPosition(bandbox, f, s).y)]
  {
    assert (slots + [s])[..|slots|] == slots;
  }

  /** Request `i` places the feature at the position of slot `i`. */
  lemma {:induction false} RequestsAt(bandbox: Rect, f: Feature, slots: seq<(int, int)>)
    ensures forall i :: 0 <= i < |slots| ==>
      Requests(bandbox, f, slots)[i] == DragDropFeature(f.name, SlotPosition(bandbox, f, slots[i]).x, SlotPosition(bandbox, f, slots[i]).y)
  {
    if slots != [] {
      RequestsAt(bandbox, f, slots[..|slots| - 1]);
    }
  }

  /** What the placements for `slots` produced, in order. */
  function Results(placed: (int, int) -> Option<int>, slots: seq<(int, int)>): (r: seq<Option<int>>)
    ensures |r| == |slots|
  {
    if slots == [] then [] else Results(placed, slots[..|slots| - 1]) + [placed(slots[|slots| - 1].0, slots[|slots| - 1].1)]
  }

  /** One more slot adds one result, what the placement there produced. */
  lemma ResultsSnoc(placed: (int, int) -> Option<int>, slots: seq<(int, int)>, s: (int, int))
    ensures Results(placed, slots + [s]) == Results(placed, slots) + [placed(s.0, s.1)]
  {
    assert (slots + [s])[..|slots|] == slots;
  }

  /** Result `i` is what the placement at slot `i` produced. */
  lemma {:induction false} ResultsAt(placed: (int, int) -> Option<int>, slots: seq<(int, int)>)
    ensures forall i :: 0 <= i < |slots| ==> Results(placed, slots)[i] == placed(slots[i].0, slots[i].1)
  {
    if slots != [] {
      ResultsAt(placed, slots[..|slots| - 1]);
    }
  }

  /** The slots a fill attempts: none without a selected feature. */
  function FillSlots(feature: Option<Feature>, bandbox: Rect, magnitude: int, draw: (int, int) -> real): seq<(int, int)>
    requires feature.Some? ==> feature.value.width > 0 && feature.value.height > 0
  {
    if feature.None? then []
    else
      var f := feature.value;
      Attempts(draw, magnitude, PlaceCount(bandbox.width, f.width), PlaceCount(bandbox.height, f.height))
  }

  /** `Math.Max(width / fWidth, height / fHeight)`, the number of points a line is drawn with. */
  function CalculatePointsNeeded(width: int, height: int, fWidth: int, fHeight: int): (r: int)
    requires fWidth > 0 && fHeight > 0
    ensures r >= TDiv(width, fWidth) && r >= TDiv(height, fHeight)
    ensures r == TDiv(width, fWidth) || r == TDiv(height, fHeight)
  {
    var a, b := TDiv(width, fWidth), TDiv(height, fHeight);
    if a >= b then a else b
  }

  /**
   * For a non-negative rectangle the points are at least a feature apart
   * along one of its sides: the point count times the feature's width
   * fits the width, or times its height fits the height.
   */
  lemma PointsFitLongerSide(width: int, height: int, fWidth: int, fHeight: int)
    requires width >= 0 && height >= 0 && fWidth > 0 && fHeight > 0
    ensures var n := CalculatePointsNeeded(width, height, fWidth, fHeight);
      n >= 0 && (n * fWidth <= width || n * fHeight <= height)
  {
    TDivMod(width, fWidth);
    TDivMod(height, fHeight);
  }

  /** The requests `PlaceAlongLine` makes: one per point, at the point the interpolation `locate` gives. */
  function LineRequests(name: string, locate: int -> Point, n: int): (r: seq<DispatcherCall>)
    ensures |r| == if n <= 0 then 0 else n
    decreases n
  {
    if n <= 0 then [] else LineRequests(name, locate, n - 1) + [DragDropFeature(name, locate(n - 1).x, locate(n - 1).y)]
  }

  lemma {:induction false} LineRequestsAt(name: string, locate: int -> Point, n: int)
    ensures forall i :: 0 <= i < |LineRequests(name, locate, n)| ==>
      LineRequests(name, locate, n)[i] == DragDropFeature(name, locate(i).x, locate(i).y)
    decreases n
  {
    if n > 0 {
      LineRequestsAt(name, locate, n - 1);
    }
  }

  function LineResults(placed: int -> Option<int>, n: int): (r: seq<Option<int>>)
    ensures |r| == if n <= 0 then 0 else n
    decreases n
  {
    if n <= 0 then [] else LineResults(placed, n - 1) + [placed(n - 1)]
  }

  /** `Where(x => x.HasValue).Select(x => x.UnsafeValue)`: the placements that produced a feature, in order. */
  function Present(s: seq<Option<int>>): (r: seq<int>)
    ensures |r| <= |s|
    ensures forall id :: id in r <==> Some(id) in s
  {
    if s == [] then []
    else
      var rest := Present(s[..|s| - 1]);
      assert forall o :: o in s <==> o in s[..|s| - 1] || o == s[|s| - 1] by {
        assert s == s[..|s| - 1] + [s[|s| - 1]];
      }
      match s[|s| - 1]
      case Some(id) => rest + [id]
      case None => rest
  }

  /** Keeping one more placement adds its feature exactly when it produced one. */
  lemma PresentSnoc(s: seq<Option<int>>, o: Option<int>)
    ensures Present(s + [o]) == Present(s) + (if o.Some? then [o.value] else [])
  {
    assert (s + [o])[..|s|] == s;
  }

  // ---------------------------------------------------------------------------
  // Start-position markers and feature depth

  /** The side of a height cell. */
  const HeightCellSize: int := 16
  /** How far above its point a start-position marker is drawn. */
  const MarkerLift: int := 58

  /**
   * The height cell under a point (C# division, toward zero): for a point on
   * the map the cell that contains it; for a negative coordinate the cell
   * boundary at or above it.
   */
  function HeightCell(p: Point): (r: Point)
    ensures p.x >= 0 ==> HeightCellSize * r.x <= p.x < HeightCellSize * r.x + HeightCellSize
    ensures p.x < 0 ==> HeightCellSize * r.x - HeightCellSize < p.x <= HeightCellSize * r.x
    ensures p.y >= 0 ==> HeightCellSize * r.y <= p.y < HeightCellSize * r.y + HeightCellSize
    ensures p.y < 0 ==> HeightCellSize * r.y - HeightCellSize < p.y <= HeightCellSize * r.y
  {
    TDivMod(p.x, HeightCellSize);
    TDivMod(p.y, HeightCellSize);
    Point(TDiv(p.x, HeightCellSize), TDiv(p.y, HeightCellSize))
  }

  /**
   * The height the marker for `p` sits on: the height of its cell when that
   * cell is in the grid, which is exactly when both coordinates lie strictly
   * between -16 and 16 times the grid's size; 0 otherwise.
   */
  function SampledHeight(p: Point, gridWidth: int, gridHeight: int, heightAt: (int, int) -> int): (r: int)
    ensures gridWidth <= 0 || gridHeight <= 0 ==> r == 0
    ensures gridWidth > 0 && gridHeight > 0 ==>
      r == if -HeightCellSize < p.x < HeightCellSize * gridWidth && -HeightCellSize < p.y < HeightCellSize * gridHeight
           then heightAt(HeightCell(p).x, HeightCell(p).y) else 0
  {
    var c := HeightCell(p);
    if gridWidth > 0 && gridHeight > 0 then
      CellInsideGrid(p.x, gridWidth);
      CellInsideGrid(p.y, gridHeight);
      if 0 <= c.x < gridWidth && 0 <= c.y < gridHeight then heightAt(c.x, c.y) else 0
    else
      0
  }

  /**
   * C# division truncates toward zero, so the height cell is inside a grid
   * `cells` wide exactly for coordinates from -15 to `16 * cells - 1`:
   * points up to 15 units outside the top or left edge read row or column 0.
   */
  lemma CellInsideGrid(v: int, cells: int)
    requires cells > 0
    ensures 0 <= TDiv(v, HeightCellSize) < cells <==> -HeightCellSize < v < HeightCellSize * cells
  {
    TDivMod(v, HeightCellSize);
    var q := TDiv(v, HeightCellSize);
    if q >= cells {
      MulMonotone(cells, q, HeightCellSize);
    }
    if 0 <= v && q < cells {
      assert HeightCellSize * q + HeightCellSize <= HeightCellSize * cells;
    }
  }

  /**
   * Where the marker image is drawn: centred on `p` across (the right part
   * is at most one unit wider than the left), and 58 units plus half the
   * height, rounded toward zero, above it; so never below 58 units above `p`
   * on non-negative ground.
   */
  function MarkerLocation(p: Point, height: int, imageWidth: int): (r: Point)
    ensures imageWidth >= 0 ==> 0 <= (r.x + imageWidth - p.x) - (p.x - r.x) <= 1
    ensures height >= 0 ==> r.y <= p.y - MarkerLift
    ensures height >= 0 ==> 0 <= 2 * (p.y - MarkerLift - r.y) <= height < 2 * (p.y - MarkerLift - r.y) + 2
    ensures height < 0 ==> 2 * (p.y - MarkerLift - r.y) - 2 < height <= 2 * (p.y - MarkerLift - r.y)
  {
    TDivMod(imageWidth, 2);
    TDivMod(height, 2);
    Point(p.x - TDiv(imageWidth, 2), p.y - MarkerLift - TDiv(height, 2))
  }

  /** A marker on higher ground is drawn no lower, at the same horizontal position. */
  lemma MarkerRisesWithGround(p: Point, low: int, high: int, imageWidth: int)
    requires low <= high
    ensures MarkerLocation(p, high, imageWidth).y <= MarkerLocation(p, low, imageWidth).y
    ensures MarkerLocation(p, high, imageWidth).x == MarkerLocation(p, low, imageWidth).x
  {
    TDivMonotone(low, high, 2);
  }

  /**
   * `ToFeatureIndex(x, y)`: the feature cell's number in row-major order.
   * Within the feature grid the index identifies the cell: it decodes back
   * to `(x, y)`.
   */
  function ToFeatureIndex(x: int, y: int, featureGridWidth: int): (r: int)
    ensures 0 <= x < featureGridWidth && 0 <= y ==> r >= 0 && r / featureGridWidth == y && r % featureGridWidth == x
  {
    if 0 <= x < featureGridWidth && 0 <= y then
      MulMonotone(0, y, featureGridWidth);
      DivModUnique(y * featureGridWidth + x, featureGridWidth, y, x);
      y * featureGridWidth + x
    else
      y * featureGridWidth + x
  }

  /** Features are drawn at depth index + 1000, above the tiles, which are drawn at their own index. */
  const FeatureDepthOffset: int := 1000

  /**
   * A feature's drawing depth: every feature of the grid is drawn over the
   * first thousand tiles, and its depth still identifies its cell.
   */
  function FeatureDepth(x: int, y: int, featureGridWidth: int): (r: int)
    ensures 0 <= x < featureGridWidth && 0 <= y ==>
      r >= FeatureDepthOffset && (r - FeatureDepthOffset) / featureGridWidth == y && (r - FeatureDepthOffset) % featureGridWidth == x
  {
    ToFeatureIndex(x, y, featureGridWidth) + FeatureDepthOffset
  }

  /**
   * Features overlap in reading order: a feature in a later row, or further
   * right in the same row, is drawn over an earlier one.
   */
  lemma FeatureDepthOrder(x1: int, y1: int, x2: int, y2: int, featureGridWidth: int)
    requires 0 <= x1 < featureGridWidth && 0 <= x2 < featureGridWidth && 0 <= y1 && 0 <= y2
    requires y1 < y2 || (y1 == y2 && x1 < x2)
    ensures FeatureDepth(x1, y1, featureGridWidth) < FeatureDepth(x2, y2, featureGridWidth)
  {
    if y1 < y2 {
      MulLess(y1, y2, featureGridWidth);
    }
  }

  // ---------------------------------------------------------------------------
  // The view model

  class MapViewViewModel {
    var mouseDown: bool
    var lastMousePos: Point
    var bandboxMode: bool
    var fillBandbox: bool
    var sporadicFillBandbox: bool
    var lineBandbox: bool
    /** What the dispatcher was asked, oldest first. */
    var calls: seq<DispatcherCall>

    /** A bandbox is only open while the button is down. */
    ghost predicate Valid()
      reads this
    {
      bandboxMode ==> mouseDown
    }

    constructor ()
      ensures Valid() && !mouseDown && !bandboxMode && !fillBandbox && !sporadicFillBandbox && !lineBandbox
      ensures calls == []
    {
      mouseDown := false;
      lastMousePos := Origin;
      bandboxMode := false;
      fillBandbox := false;
      sporadicFillBandbox := false;
      lineBandbox := false;
      calls := [];
    }

    predicate Flag(flag: BandboxFlag)
      reads this
    {
      match flag
      case LineBandbox => lineBandbox
      case FillBandbox => fillBandbox
      case SporadicFillBandbox => sporadicFillBandbox
    }

    /** The three flags other than `flag` are as they were. */
    twostate predicate OtherFlagsUnchanged(flag: Option<BandboxFlag>)
      reads this
    {
      (flag != Some(LineBandbox) ==> lineBandbox == old(lineBandbox))
      && (flag != Some(FillBandbox) ==> fillBandbox == old(fillBandbox))
      && (flag != Some(SporadicFillBandbox) ==> sporadicFillBandbox == old(sporadicFillBandbox))
    }

    /** `flag = true` through the `ref` argument. */
    method SetFlag(flag: BandboxFlag)
      modifies this`lineBandbox, this`fillBandbox, this`sporadicFillBandbox
      ensures Flag(flag) && OtherFlagsUnchanged(Some(flag))
    {
      match flag {
        case LineBandbox => lineBandbox := true;
        case FillBandbox => fillBandbox := true;
        case SporadicFillBandbox => sporadicFillBandbox := true;
      }
    }

    /** What `MouseDownLeft(location)` does, given the items layer's answers. */
    twostate predicate PressedLeft(location: Point, inSelection: bool, hit: Option<ItemTag>)
      reads this
    {
      mouseDown && lastMousePos == location && OtherFlagsUnchanged(None)
      && (inSelection ==> calls == old(calls) && bandboxMode == old(bandboxMode))
      && (!inSelection && hit.Some? ==> calls == old(calls) + [SelectItem(hit.value)] && bandboxMode == old(bandboxMode))
      && (!inSelection && hit.None? ==>
            calls == old(calls) + [ClearSelection, StartBandbox(location.x, location.y)] && bandboxMode)
    }

    /** What `MouseDownBandboxEnableFlag(location, ref flag)` does. */
    twostate predicate PressedWithFlag(location: Point, flag: BandboxFlag, tab: ActiveTab, inSelection: bool, hit: Option<ItemTag>)
      reads this
    {
      if tab == FeaturesTab then
        mouseDown && lastMousePos == location && bandboxMode && Flag(flag) && OtherFlagsUnchanged(Some(flag))
        && calls == old(calls) + [ClearSelection, StartBandbox(location.x, location.y)]
      else
        PressedLeft(location, inSelection, hit)
    }

    /**
     * `MouseDownLeft(location)`: inside the selection only the press is
     * recorded; on an item the item is selected; on empty space the
     * selection is cleared and a bandbox opened.
     */
    method MouseDownLeft(location: Point, inSelection: bool, hit: Option<ItemTag>)
      requires Valid()
      modifies this`mouseDown, this`lastMousePos, this`bandboxMode, this`calls
      ensures Valid() && PressedLeft(location, inSelection, hit)
    {
      mouseDown := true;
      lastMousePos := location;
      if !inSelection {
        if hit.Some? {
          calls := calls + [SelectItem(hit.value)];
        } else {
          calls := calls + [ClearSelection, StartBandbox(location.x, location.y)];
          bandboxMode := true;
        }
      }
    }

    /**
     * `MouseDownBandboxEnableFlag(location, ref flag)`: on the Features tab
     * a fill bandbox is opened and the flag set; on any other tab it is an
     * ordinary left press.
     */
    method MouseDownBandboxEnableFlag(location: Point, flag: BandboxFlag, tab: ActiveTab, inSelection: bool, hit: Option<ItemTag>)
      requires Valid()
      modifies this
      ensures Valid() && PressedWithFlag(location, flag, tab, inSelection, hit)
    {
      if tab == FeaturesTab {
        mouseDown := true;
        lastMousePos := location;
        calls := calls + [ClearSelection, StartBandbox(location.x, location.y)];
        bandboxMode := true;
        SetFlag(flag);
      } else {
        MouseDownLeft(location, inSelection, hit);
      }
    }

    /**
     * `HandleMouseDownLeft(location, modifierKeys)`: in Selection mode a
     * plain press is a left press and a Shift press opens a fill bandbox;
     * any other modifier does nothing. In the Line, Fill and Sporadic modes
     * the press opens a bandbox with that mode's flag, whatever the
     * modifiers.
     */
    method HandleMouseDownLeft(location: Point, modifiers: Modifiers, mode: FeaturePlacementMode,
                               tab: ActiveTab, inSelection: bool, hit: Option<ItemTag>)
      requires Valid()
      modifies this
      ensures Valid()
      ensures mode == SelectionMode && modifiers == NoKeys ==> PressedLeft(location, inSelection, hit)
      ensures mode == SelectionMode && modifiers == ShiftKey ==> PressedWithFlag(location, FillBandbox, tab, inSelection, hit)
      ensures mode == SelectionMode && modifiers == OtherKeys ==>
        calls == old(calls) && mouseDown == old(mouseDown) && lastMousePos == old(lastMousePos)
        && bandboxMode == old(bandboxMode) && OtherFlagsUnchanged(None)
      ensures mode == LineMode ==> PressedWithFlag(location, LineBandbox, tab, inSelection, hit)
      ensures mode == FillMode ==> PressedWithFlag(location, FillBandbox, tab, inSelection, hit)
      ensures mode == SporadicMode ==> PressedWithFlag(location, SporadicFillBandbox, tab, inSelection, hit)
    {
      if modifiers == NoKeys && mode == SelectionMode {
        MouseDownLeft(location, inSelection, hit);
      } else if mode != SelectionMode {
        match mode {
          case LineMode => MouseDownBandboxEnableFlag(location, LineBandbox, tab, inSelection, hit);
          case FillMode => MouseDownBandboxEnableFlag(location, FillBandbox, tab, inSelection, hit);
          case SporadicMode => MouseDownBandboxEnableFlag(location, SporadicFillBandbox, tab, inSelection, hit);
        }
      } else if modifiers != NoKeys {
        if modifiers == ShiftKey {
          MouseDownBandboxEnableFlag(location, FillBandbox, tab, inSelection, hit);
        }
      }
    }

    /**
     * `MouseMove(location)`: while the button is down, the step from the
     * last position goes to the bandbox if one is open and to the selection
     * otherwise; the position is recorded either way.
     */
    method MouseMove(location: Point)
      requires Valid()
      modifies this`lastMousePos, this`calls
      ensures Valid() && lastMousePos == location
      ensures !mouseDown ==> calls == old(calls)
      ensures mouseDown && bandboxMode ==>
        calls == old(calls) + [GrowBandbox(location.x - old(lastMousePos).x, location.y - old(lastMousePos).y)]
      ensures mouseDown && !bandboxMode ==>
        calls == old(calls) + [TranslateSelection(location.x - old(lastMousePos).x, location.y - old(lastMousePos).y)]
    {
      if mouseDown {
        if bandboxMode {
          calls := calls + [GrowBandbox(location.x - lastMousePos.x, location.y - lastMousePos.y)];
        } else {
          calls := calls + [TranslateSelection(location.x - lastMousePos.x, location.y - lastMousePos.y)];
        }
      }
      lastMousePos := location;
    }

    /**
     * `SporadicFillFeatureInBandbox(magnitude)`: tries to place the
     * selected feature at every slot of the bandbox whose draw is at most
     * `magnitude / 100`, column by column, and returns what each attempt
     * produced. `placed(w, h)` is what the dispatcher's placement at slot
     * `(w, h)` returns.
     */
    method SporadicFillFeatureInBandbox(magnitude: int, feature: Option<Feature>, bandbox: Rect,
                                        draw: (int, int) -> real, placed: (int, int) -> Option<int>)
      returns (placedFeats: seq<Option<int>>)
      requires feature.Some? ==> feature.value.width > 0 && feature.value.height > 0
      modifies this`calls
      ensures feature.None? ==> placedFeats == [] && calls == old(calls)
      ensures feature.Some? ==>
        var slots := FillSlots(feature, bandbox, magnitude, draw);
        calls == old(calls) + Requests(bandbox, feature.value, slots) && placedFeats == Results(placed, slots)
    {
      placedFeats := [];
      if feature.Some? {
        var f := feature.value;
        var fWidth, fHeight := f.width, f.height;
        var wPlaceCount := PlaceCount(bandbox.width, fWidth);
        var hPlaceCount := PlaceCount(bandbox.height, fHeight);
        var w := 0;
        while w < wPlaceCount
          invariant 0 <= w && (w <= wPlaceCount || w == 0)
          invariant calls == old(calls) + Requests(bandbox, f, Attempts(draw, magnitude, w, hPlaceCount))
          invariant placedFeats == Results(placed, Attempts(draw, magnitude, w, hPlaceCount))
        {
          placedFeats := FillColumn(magnitude, f, bandbox, draw, placed, w, hPlaceCount, old(calls), placedFeats);
          w := w + 1;
        }
        assert Attempts(draw, magnitude, w, hPlaceCount) == Attempts(draw, magnitude, wPlaceCount, hPlaceCount);
      }
    }

    /**
     * The inner loop of `SporadicFillFeatureInBandbox`: the attempts in
     * column `w`, appended to the requests and results so far.
     */
    method FillColumn(magnitude: int, f: Feature, bandbox: Rect, draw: (int, int) -> real,
                      placed: (int, int) -> Option<int>, w: int, hPlaceCount: int,
                      ghost before: seq<DispatcherCall>, placedFeats: seq<Option<int>>)
      returns (placedFeats': seq<Option<int>>)
      requires w >= 0
      requires calls == before + Requests(bandbox, f, Attempts(draw, magnitude, w, hPlaceCount))
      requires placedFeats == Results(placed, Attempts(draw, magnitude, w, hPlaceCount))
      modifies this`calls
      ensures calls == before + Requests(bandbox, f, Attempts(draw, magnitude, w + 1, hPlaceCount))
      ensures placedFeats' == Results(placed, Attempts(draw, magnitude, w + 1, hPlaceCount))
    {
      ghost var done := Attempts(draw, magnitude, w, hPlaceCount);
      placedFeats' := placedFeats;
      assert done + Column(draw, magnitude, w, 0) == done;
      var h := 0;
      while h < hPlaceCount
        invariant 0 <= h && (h <= hPlaceCount || h == 0)
        invariant calls == before + Requests(bandbox, f, done + Column(draw, magnitude, w, h))
        invariant placedFeats' == Results(placed, done + Column(draw, magnitude, w, h))
      {
        placedFeats' := FillSlot(magnitude, f, bandbox, draw, placed, w, h, before, done, placedFeats');
        h := h + 1;
      }
      assert Column(draw, magnitude, w, h) == Column(draw, magnitude, w, hPlaceCount);
      assert Attempts(draw, magnitude, w + 1, hPlaceCount) == done + Column(draw, magnitude, w, hPlaceCount);
    }

    /**
     * One pass of the inner loop of `SporadicFillFeatureInBandbox`: slot
     * `(w, h)` is attempted if its draw lets it be.
     */
    method FillSlot(magnitude: int, f: Feature, bandbox: Rect, draw: (int, int) -> real,
                    placed: (int, int) -> Option<int>, w: int, h: int,
                    ghost before: seq<DispatcherCall>, ghost done: seq<(int, int)>, placedFeats: seq<Option<int>>)
      returns (placedFeats': seq<Option<int>>)
      requires h >= 0
      requires calls == before + Requests(bandbox, f, done + Column(draw, magnitude, w, h))
      requires placedFeats == Results(placed, done + Column(draw, magnitude, w, h))
      modifies this`calls
      ensures calls == before + Requests(bandbox, f, done + Column(draw, magnitude, w, h + 1))
      ensures placedFeats' == Results(placed, done + Column(draw, magnitude, w, h + 1))
    {
      placedFeats' := placedFeats;
      ghost var sofar := done + Column(draw, magnitude, w, h);
      if Drawn(draw, magnitude, w, h) {
        var result := placed(w, h);
        var p := SlotPosition(bandbox, f, (w, h));
        assert done + Column(draw, magnitude, w, h + 1) == sofar + [(w, h)];
        RequestsSnoc(before, bandbox, f, sofar, (w, h));
        ResultsSnoc(placed, sofar, (w, h));
        calls := calls + [DragDropFeature(f.name, p.x, p.y)];
        placedFeats' := placedFeats' + [result];
      } else {
        assert done + Column(draw, magnitude, w, h + 1) == sofar;
      }
    }

    /**
     * `PlaceAlongLine(rect)`: places the selected feature at as many points
     * as `CalculatePointsNeeded` gives for the rectangle. `locate(i)` is the
     * point the interpolation along the bandbox's diagonal gives for point
     * `i`, and `placed(i)` what placing there returned.
     */
    method PlaceAlongLine(rect: Rect, feature: Option<Feature>, locate: int -> Point, placed: int -> Option<int>)
      returns (placedFeats: seq<Option<int>>)
      requires feature.Some? ==> feature.value.width > 0 && feature.value.height > 0
      modifies this`calls
      ensures feature.None? ==> placedFeats == [] && calls == old(calls)
      ensures feature.Some? ==>
        var n := CalculatePointsNeeded(rect.width, rect.height, feature.value.width, feature.value.height);
        calls == old(calls) + LineRequests(feature.value.name, locate, n) && placedFeats == LineResults(placed, n)
    {
      placedFeats := [];
      if feature.Some? {
        var feat := feature.value;
        var points := CalculatePointsNeeded(rect.width, rect.height, feat.width, feat.height);
        var i := 0;
        while i < points
          invariant 0 <= i && (i <= points || i == 0)
          invariant calls == old(calls) + LineRequests(feat.name, locate, i) && placedFeats == LineResults(placed, i)
        {
          var loc := locate(i);
          calls := calls + [DragDropFeature(feat.name, loc.x, loc.y)];
          placedFeats := placedFeats + [placed(i)];
          i := i + 1;
        }
        assert LineRequests(feat.name, locate, i) == LineRequests(feat.name, locate, points);
        assert LineResults(placed, i) == LineResults(placed, points);
      }
    }

    /**
     * The dispatcher calls of a fill on release: one drag-and-drop per slot
     * filled, then the bandbox is committed, the selection cleared and the
     * features placed selected.
     */
    function FillCalls(feature: Option<Feature>, bandbox: Rect, magnitude: int,
                       draw: (int, int) -> real, placed: (int, int) -> Option<int>): seq<DispatcherCall>
      requires feature.Some? ==> feature.value.width > 0 && feature.value.height > 0
    {
      var slots := FillSlots(feature, bandbox, magnitude, draw);
      (if feature.Some? then Requests(bandbox, feature.value, slots) else [])
        + [CommitBandbox, ClearSelection, SelectFeatures(Present(Results(placed, slots)))]
    }

    /**
     * The dispatcher calls of a line on release: the bandbox is committed
     * first, then one drag-and-drop per point of the line, then the selection
     * is cleared and the features placed selected.
     */
    function LineCalls(feature: Option<Feature>, bandbox: Rect, locate: int -> Point,
                       placedOnLine: int -> Option<int>): seq<DispatcherCall>
      requires feature.Some? ==> feature.value.width > 0 && feature.value.height > 0
    {
      var n := if feature.Some? then CalculatePointsNeeded(bandbox.width, bandbox.height, feature.value.width, feature.value.height) else 0;
      [CommitBandbox] + (if feature.Some? then LineRequests(feature.value.name, locate, n) else [])
        + [ClearSelection, SelectFeatures(Present(LineResults(placedOnLine, n)))]
    }

    /** The sporadic and fill branches of `MouseUp`, apart from the flags. */
    method FillAndSelect(magnitude: int, feature: Option<Feature>, bandbox: Rect,
                         draw: (int, int) -> real, placed: (int, int) -> Option<int>)
      requires feature.Some? ==> feature.value.width > 0 && feature.value.height > 0
      modifies this`calls
      ensures calls == old(calls) + FillCalls(feature, bandbox, magnitude, draw, placed)
    {
      var placedFeats := SporadicFillFeatureInBandbox(magnitude, feature, bandbox, draw, placed);
      ghost var filled := calls;
      calls := calls + [CommitBandbox, ClearSelection];
      calls := calls + [SelectFeatures(Present(placedFeats))];
      assert calls == filled + [CommitBandbox, ClearSelection, SelectFeatures(Present(placedFeats))];
    }

    /** The line branch of `MouseUp`, apart from the flags. */
    method LineAndSelect(feature: Option<Feature>, bandbox: Rect, locate: int -> Point, placedOnLine: int -> Option<int>)
      requires feature.Some? ==> feature.value.width > 0 && feature.value.height > 0
      modifies this`calls
      ensures calls == old(calls) + LineCalls(feature, bandbox, locate, placedOnLine)
    {
      calls := calls + [CommitBandbox];
      ghost var committed := calls;
      var placedFeats := PlaceAlongLine(bandbox, feature, locate, placedOnLine);
      ghost var lined := calls;
      calls := calls + [ClearSelection, SelectFeatures(Present(placedFeats))];
      assert (old(calls) + [CommitBandbox]) + lined[|committed|..] == old(calls) + ([CommitBandbox] + lined[|committed|..]);
      assert calls == old(calls) + LineCalls(feature, bandbox, locate, placedOnLine);
    }

    /**
     * `MouseUp()`: releases the button. An open bandbox with no fill flag
     * is committed; with the sporadic flag it is filled at the dispatcher's
     * magnitude, with the fill flag at magnitude 100, and with the line flag
     * a line of features is placed along it; in those three cases the
     * selection is then cleared and replaced by the features placed, and
     * only that mode's flag is reset. Without a bandbox the translation is
     * flushed.
     */
    method MouseUp(magnitude: int, feature: Option<Feature>, bandbox: Rect,
                   draw: (int, int) -> real, placed: (int, int) -> Option<int>,
                   locate: int -> Point, placedOnLine: int -> Option<int>)
      requires Valid()
      requires feature.Some? ==> feature.value.width > 0 && feature.value.height > 0
      modifies this`mouseDown, this`bandboxMode, this`fillBandbox, this`sporadicFillBandbox, this`lineBandbox, this`calls
      ensures Valid() && !mouseDown && !bandboxMode
      ensures !old(bandboxMode) ==> calls == old(calls) + [FlushTranslation] && OtherFlagsUnchanged(None)
      ensures old(bandboxMode) && !old(fillBandbox) && !old(lineBandbox) && !old(sporadicFillBandbox) ==>
        calls == old(calls) + [CommitBandbox] && OtherFlagsUnchanged(None)
      ensures old(bandboxMode) && old(sporadicFillBandbox) ==>
        calls == old(calls) + FillCalls(feature, bandbox, magnitude, draw, placed)
        && !sporadicFillBandbox && OtherFlagsUnchanged(Some(SporadicFillBandbox))
      ensures old(bandboxMode) && !old(sporadicFillBandbox) && old(fillBandbox) ==>
        calls == old(calls) + FillCalls(feature, bandbox, FullMagnitude, draw, placed)
        && !fillBandbox && OtherFlagsUnchanged(Some(FillBandbox))
      ensures old(bandboxMode) && !old(sporadicFillBandbox) && !old(fillBandbox) && old(lineBandbox) ==>
        calls == old(calls) + LineCalls(feature, bandbox, locate, placedOnLine)
        && !lineBandbox && OtherFlagsUnchanged(Some(LineBandbox))
    {
      mouseDown := false;
      if bandboxMode {
        if !fillBandbox && !lineBandbox && !sporadicFillBandbox {
          calls := calls + [CommitBandbox];
          bandboxMode := false;
        } else if sporadicFillBandbox {
          FillAndSelect(magnitude, feature, bandbox, draw, placed);
          bandboxMode := false;
          sporadicFillBandbox := false;
        } else if fillBandbox {
          FillAndSelect(FullMagnitude, feature, bandbox, draw, placed);
          bandboxMode := false;
          fillBandbox := false;
        } else if lineBandbox {
          LineAndSelect(feature, bandbox, locate, placedOnLine);
          bandboxMode := false;
          lineBandbox := false;
        }
      } else {
        calls := calls + [FlushTranslation];
      }
    }

    /** `KeyDown(key)`: the Delete key deletes the selection; other keys do nothing. */
    method KeyDown(key: Key)
      modifies this`calls
      ensures calls == old(calls) + (if key == Delete then [DeleteSelection] else [])
    {
      if key == Delete {
        calls := calls + [DeleteSelection];
      }
    }

    /** `LeaveFocus()`: the selection is cleared. */
    method LeaveFocus()
      modifies this`calls
      ensures calls == old(calls) + [ClearSelection]
    {
      calls := calls + [ClearSelection];
    }
  }
}
