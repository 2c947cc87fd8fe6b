/**
 * `SelectionModel`: what is selected (a floating tile, a list of feature
 * grid cells, or a start position), and the select, clear, delete,
 * translate and drag-drop operations on it.
 *
 * The map command handler it drives is the log `calls` of the requests it
 * received; what the handler answers (whether a batch move succeeded, the
 * index a placed section got, whether a feature could be placed) is a
 * parameter of the operation that asks. The bandbox behaviour is the log
 * `bandboxCalls`. Property-change notifications are not modelled, except
 * for the one that recomputes `HasSelection`.
 */
module Selection {
  import opened Geometry
  import opened Integers

  /** A cell of the feature grid. */
  datatype GridCoordinates = GridCoordinates(x: int, y: int)

  /** The requests `SelectionModel` makes of its `IMapCommandHandler`. */
  datatype MapCall =
    | RemoveFeature(x: int, y: int)
    | RemoveSection(index: int)
    | RemoveStartPosition(index: int)
    | TranslateStartPosition(index: int, dx: int, dy: int)
    | TranslateSection(index: int, dx: int, dy: int)
    | TranslateFeatureBatch(coords: seq<GridCoordinates>, dx: int, dy: int)
    | FlushTranslation
    | TryPlaceFeature(name: string, x: int, y: int)
    | PlaceSection(tileId: int, x: int, y: int)
    | SetStartPosition(index: int, x: int, y: int)
    | MergeSection(index: int)

  /** The requests forwarded to the bandbox behaviour. */
  datatype BandboxCall = StartBandbox(x: int, y: int) | GrowBandbox(dx: int, dy: int) | CommitBandbox

  /** Drag units: a tile moves by whole 32-unit cells, a feature by whole 16-unit cells. */
  const TileUnit: int := 32
  const FeatureUnit: int := 16

  // ---------------------------------------------------------------------------
  // Quantising drags

  /**
   * One translation step: the accumulated drag `acc` split into whole cells
   * and the remainder kept for the next step, as C#'s `/` and `%` split it.
   * The two are the only pair that recombines into `acc`, with the remainder
   * shorter than a cell and on the same side of zero as `acc`.
   */
  function Quantise(acc: int, unit: int): (q: (int, int))
    requires unit > 0
    ensures q.0 * unit + q.1 == acc
    ensures -unit < q.1 < unit
    ensures acc >= 0 ==> 0 <= q.1
    ensures acc <= 0 ==> q.1 <= 0
  {
    TDivMod(acc, unit);
    (TDiv(acc, unit), TMod(acc, unit))
  }

  function Sum(s: seq<int>): int {
    if s == [] then 0 else Sum(s[..|s| - 1]) + s[|s| - 1]
  }

  /**
   * A drag delivered as the moves `moves`, one translation step each,
   * starting from the remainder `rem`: the whole cells issued in total and
   * the remainder left at the end.
   */
  function Replay(rem: int, moves: seq<int>, unit: int): (int, int)
    requires unit > 0
    decreases |moves|
  {
    if moves == [] then (0, rem)
    else
      var step := Quantise(rem + moves[0], unit);
      var rest := Replay(step.1, moves[1..], unit);
      (step.0 + rest.0, rest.1)
  }

  lemma {:induction false} SumCons(s: seq<int>)
    requires s != []
    ensures Sum(s) == s[0] + Sum(s[1..])
  {
    if |s| > 1 {
      SumCons(s[..|s| - 1]);
      assert s[..|s| - 1][1..] == s[1..][..|s[1..]| - 1];
    }
  }

  /**
   * Splitting a drag loses nothing: the cells issued, times the cell size,
   * plus the remainder left, is the starting remainder plus everything
   * dragged; and the remainder is shorter than a cell.
   */
  lemma {:induction false} ReplayLossless(rem: int, moves: seq<int>, unit: int)
    requires unit > 0 && -unit < rem < unit
    ensures Replay(rem, moves, unit).0 * unit + Replay(rem, moves, unit).1 == rem + Sum(moves)
    ensures -unit < Replay(rem, moves, unit).1 < unit
    decreases |moves|
  {
    if moves != [] {
      var step := Quantise(rem + moves[0], unit);
      ReplayLossless(step.1, moves[1..], unit);
      SumCons(moves);
      var rest := Replay(step.1, moves[1..], unit);
      AddCells(step.0, step.1, rest.0, rest.1, unit, rem + moves[0], Sum(moves[1..]));
    }
  }

  lemma AddCells(q1: int, r1: int, q2: int, r2: int, unit: int, x: int, y: int)
    requires q1 * unit + r1 == x && q2 * unit + r2 == r1 + y
    ensures (q1 + q2) * unit + r2 == x + y
  {
    assert (q1 + q2) * unit == q1 * unit + q2 * unit;
  }

  /**
   * When the remainder and every move are non-negative, splitting a drag
   * issues the same cells and leaves the same remainder as one step with
   * the whole drag.
   */
  lemma {:induction false} ReplayForward(rem: int, moves: seq<int>, unit: int)
    requires unit > 0 && 0 <= rem < unit
    requires forall i :: 0 <= i < |moves| ==> moves[i] >= 0
    ensures Sum(moves) >= 0
    ensures Replay(rem, moves, unit) == Quantise(rem + Sum(moves), unit)
    decreases |moves|
  {
    if moves == [] {
      TDivUnique(rem, unit, 0, rem);
    } else {
      var step := Quantise(rem + moves[0], unit);
      ReplayForward(step.1, moves[1..], unit);
      SumCons(moves);
      var rest := Replay(step.1, moves[1..], unit);
      AddCells(step.0, step.1, rest.0, rest.1, unit, rem + moves[0], Sum(moves[1..]));
      TDivUnique(rem + Sum(moves), unit, step.0 + rest.0, rest.1);
    }
  }

  /**
   * Without that condition splitting is not the same as one step: dragging
   * 40 then -10 tile units issues one cell and keeps -2, while one drag of
   * 30 issues no cell and keeps 30.
   */
  lemma SplitDragDiffers()
    ensures Replay(0, [40, -10], TileUnit) == (1, -2)
    ensures Quantise(40 + -10, TileUnit) == (0, 30)
  {
    TDivUnique(40, 32, 1, 8);
    TDivUnique(-2, 32, 0, -2);
    TDivUnique(30, 32, 0, 30);
    assert [40, -10][1..] == [-10];
  }

  // ---------------------------------------------------------------------------
  // Feature lists

  /** Every coordinate moved by `(dx, dy)`, in the same order. */
  function Shifted(cs: seq<GridCoordinates>, dx: int, dy: int): (r: seq<GridCoordinates>)
    ensures |r| == |cs|
    ensures forall i :: 0 <= i < |cs| ==> r[i] == GridCoordinates(cs[i].x + dx, cs[i].y + dy)
  {
    if cs == [] then []
    else Shifted(cs[..|cs| - 1], dx, dy) + [GridCoordinates(cs[|cs| - 1].x + dx, cs[|cs| - 1].y + dy)]
  }

  /** Two successive moves of a list add up to one. */
  lemma {:induction false} ShiftedCompose(cs: seq<GridCoordinates>, dx: int, dy: int, ex: int, ey: int)
    ensures Shifted(Shifted(cs, dx, dy), ex, ey) == Shifted(cs, dx + ex, dy + ey)
  {
    var once := Shifted(cs, dx, dy);
    var twice := Shifted(once, ex, ey);
    var direct := Shifted(cs, dx + ex, dy + ey);
    assert |twice| == |cs| == |direct|;
    forall i | 0 <= i < |cs| ensures twice[i] == direct[i] {
      var c := cs[i];
      assert once[i] == GridCoordinates(c.x + dx, c.y + dy);
      assert twice[i] == GridCoordinates(c.x + dx + ex, c.y + dy + ey);
    }
  }

  /** Moving back by the opposite amount restores the list. */
  lemma {:induction false} ShiftedInverse(cs: seq<GridCoordinates>, dx: int, dy: int)
    ensures Shifted(Shifted(cs, dx, dy), -dx, -dy) == cs
  {
    ShiftedCompose(cs, dx, dy, -dx, -dy);
    var z := Shifted(cs, 0, 0);
    forall i | 0 <= i < |cs| ensures z[i] == cs[i] {
    }
  }

  /** One `RemoveFeature` per selected coordinate, in selection order. */
  function Removals(cs: seq<GridCoordinates>): (r: seq<MapCall>)
    ensures |r| == |cs|
    ensures forall i :: 0 <= i < |cs| ==> r[i] == RemoveFeature(cs[i].x, cs[i].y)
  {
    if cs == [] then [] else Removals(cs[..|cs| - 1]) + [RemoveFeature(cs[|cs| - 1].x, cs[|cs| - 1].y)]
  }

  /** The `MergeSection` request for a selected tile, if any. */
  function MergeOf(tile: Option<int>): (r: seq<MapCall>)
    ensures |r| <= 1
    ensures r == [] <==> tile.None?
    ensures tile.Some? ==> r[0] == MergeSection(tile.value)
  {
    if tile.Some? then [MergeSection(tile.value)] else []
  }

  /** At most one of the three kinds of selection is populated. */
  predicate Exclusive(features: seq<GridCoordinates>, tile: Option<int>, start: Option<int>) {
    (|features| > 0 ==> tile.None? && start.None?) && (tile.Some? ==> start.None?)
  }

  // ---------------------------------------------------------------------------
  // The model

  class SelectionModel {
    var selectedFeatures: seq<GridCoordinates>
    var selectedTile: Option<int>
    var selectedStartPosition: Option<int>
    /** Recomputed only when the selected tile or start position changes. */
    var hasSelection: bool
    var previousTranslationOpen: bool
    var deltaX: int
    var deltaY: int
    /** What the map command handler was asked, oldest first. */
    var calls: seq<MapCall>
    var bandboxCalls: seq<BandboxCall>

    ghost predicate Valid()
      reads this
    {
      Exclusive(selectedFeatures, selectedTile, selectedStartPosition)
    }

    /** Whether any kind of selection is populated: what `OnSelectionChanged` stores. */
    predicate AnySelected()
      reads this
    {
      |selectedFeatures| > 0 || selectedTile.Some? || selectedStartPosition.Some?
    }

    constructor ()
      ensures Valid() && !AnySelected() && !hasSelection && !previousTranslationOpen
      ensures deltaX == 0 && deltaY == 0 && calls == [] && bandboxCalls == []
    {
      selectedFeatures := [];
      selectedTile := None;
      selectedStartPosition := None;
      hasSelection := false;
      previousTranslationOpen := false;
      deltaX, deltaY := 0, 0;
      calls, bandboxCalls := [], [];
    }

    /** `OnSelectionChanged`. */
    method OnSelectionChanged()
      modifies this`hasSelection
      ensures hasSelection == AnySelected()
    {
      hasSelection := |selectedFeatures| > 0 || selectedTile.Some? || selectedStartPosition.Some?;
    }

    /** The `SelectedTile` setter: only a change of value recomputes `HasSelection`. */
    method SetSelectedTile(value: Option<int>)
      modifies this`selectedTile, this`hasSelection
      ensures selectedTile == value
      ensures hasSelection == if value != old(selectedTile) then AnySelected() else old(hasSelection)
    {
      if value != selectedTile {
        selectedTile := value;
        OnSelectionChanged();
      }
    }

    /** The `SelectedStartPosition` setter. */
    method SetSelectedStartPosition(value: Option<int>)
      modifies this`selectedStartPosition, this`hasSelection
      ensures selectedStartPosition == value
      ensures hasSelection == if value != old(selectedStartPosition) then AnySelected() else old(hasSelection)
    {
      if value != selectedStartPosition {
        selectedStartPosition := value;
        OnSelectionChanged();
      }
    }

    /** `MergeDownSelectedTile`: a selected tile is merged into the terrain and deselected. */
    method MergeDownSelectedTile()
      modifies this`selectedTile, this`hasSelection, this`calls
      ensures selectedTile == None && calls == old(calls) + MergeOf(old(selectedTile))
      ensures hasSelection == if old(selectedTile).Some? then AnySelected() else old(hasSelection)
    {
      if selectedTile.Some? {
        calls := calls + [MergeSection(selectedTile.value)];
        SetSelectedTile(None);
      }
    }

    /** `FlushTranslation`: closes the drag; the remainders are dropped. */
    method FlushTranslation()
      modifies this`deltaX, this`deltaY, this`previousTranslationOpen, this`calls
      ensures deltaX == 0 && deltaY == 0 && !previousTranslationOpen
      ensures calls == old(calls) + [MapCall.FlushTranslation]
    {
      deltaX := 0;
      deltaY := 0;
      previousTranslationOpen := false;
      calls := calls + [MapCall.FlushTranslation];
    }

    /**
     * `ClearSelection`: flushes an open drag, then empties every kind of
     * selection, merging a selected tile down first.
     */
    method ClearSelection()
      requires Valid()
      modifies this
      ensures Valid() && !AnySelected() && !previousTranslationOpen
      ensures calls == old(calls) + (if old(previousTranslationOpen) then [MapCall.FlushTranslation] else []) + MergeOf(old(selectedTile))
      ensures deltaX == (if old(previousTranslationOpen) then 0 else old(deltaX))
      ensures deltaY == (if old(previousTranslationOpen) then 0 else old(deltaY))
      ensures hasSelection == if old(selectedTile).Some? || old(selectedStartPosition).Some? then false else old(hasSelection)
      ensures bandboxCalls == old(bandboxCalls)
    {
      if previousTranslationOpen {
        FlushTranslation();
      }
      selectedFeatures := [];
      MergeDownSelectedTile();
      SetSelectedStartPosition(None);
    }

    /**
     * `DeleteSelection`: removes the selected features one by one, or else
     * the selected tile, or else the selected start position; with nothing
     * selected nothing is asked of the handler.
     */
    method DeleteSelection()
      requires Valid()
      modifies this`selectedFeatures, this`selectedTile, this`selectedStartPosition, this`hasSelection, this`calls
      ensures Valid() && !AnySelected()
      ensures |old(selectedFeatures)| > 0 ==> calls == old(calls) + Removals(old(selectedFeatures))
      ensures |old(selectedFeatures)| == 0 && old(selectedTile).Some? ==>
        calls == old(calls) + [RemoveSection(old(selectedTile).value)]
      ensures |old(selectedFeatures)| == 0 && old(selectedTile).None? && old(selectedStartPosition).Some? ==>
        calls == old(calls) + [RemoveStartPosition(old(selectedStartPosition).value)]
      ensures !old(AnySelected()) ==> calls == old(calls)
      ensures hasSelection == if old(selectedTile).Some? || old(selectedStartPosition).Some? then false else old(hasSelection)
    {
      if |selectedFeatures| > 0 {
        var features := selectedFeatures;
        for i := 0 to |features|
          invariant calls == old(calls) + Removals(features[..i])
          invariant selectedTile == old(selectedTile) && selectedStartPosition == old(selectedStartPosition)
          invariant selectedFeatures == features && hasSelection == old(hasSelection)
        {
          assert features[..i + 1][..i] == features[..i];
          calls := calls + [RemoveFeature(features[i].x, features[i].y)];
        }
        assert features[..|features|] == features;
        selectedFeatures := [];
      } else if selectedTile.Some? {
        calls := calls + [RemoveSection(selectedTile.value)];
        SetSelectedTile(None);
      } else if selectedStartPosition.Some? {
        calls := calls + [RemoveStartPosition(selectedStartPosition.value)];
        SetSelectedStartPosition(None);
      }
    }

    /**
     * `TranslateSelection(x, y)`: a start position moves one to one; a
     * tile moves by the whole 32-unit cells accumulated so far; features
     * move as a batch by whole 16-unit cells, and only when the handler
     * reports that the batch could move (`batchMoved`). The drag is marked
     * open in every case.
     */
    method TranslateSelection(x: int, y: int, batchMoved: bool)
      requires Valid()
      modifies this`selectedFeatures, this`deltaX, this`deltaY, this`previousTranslationOpen, this`calls
      ensures Valid() && previousTranslationOpen
      ensures selectedTile == old(selectedTile) && selectedStartPosition == old(selectedStartPosition)
      ensures old(selectedStartPosition).Some? ==>
        calls == old(calls) + [TranslateStartPosition(old(selectedStartPosition).value, x, y)]
        && selectedFeatures == old(selectedFeatures) && deltaX == old(deltaX) && deltaY == old(deltaY)
      ensures old(selectedStartPosition).None? && old(selectedTile).Some? ==>
        var qx, qy := Quantise(old(deltaX) + x, TileUnit), Quantise(old(deltaY) + y, TileUnit);
        calls == old(calls) + [TranslateSection(old(selectedTile).value, qx.0, qy.0)]
        && deltaX == qx.1 && deltaY == qy.1 && selectedFeatures == old(selectedFeatures)
      ensures old(selectedStartPosition).None? && old(selectedTile).None? && |old(selectedFeatures)| > 0 ==>
        var qx, qy := Quantise(old(deltaX) + x, FeatureUnit), Quantise(old(deltaY) + y, FeatureUnit);
        calls == old(calls) + [TranslateFeatureBatch(old(selectedFeatures), qx.0, qy.0)]
        && (batchMoved ==> selectedFeatures == Shifted(old(selectedFeatures), qx.0, qy.0) && deltaX == qx.1 && deltaY == qy.1)
        && (!batchMoved ==> selectedFeatures == old(selectedFeatures) && deltaX == old(deltaX) + x && deltaY == old(deltaY) + y)
      ensures !old(AnySelected()) ==>
        calls == old(calls) && deltaX == old(deltaX) && deltaY == old(deltaY) && selectedFeatures == old(selectedFeatures)
    {
      if selectedStartPosition.Some? {
        calls := calls + [TranslateStartPosition(selectedStartPosition.value, x, y)];
      } else if selectedTile.Some? {
        deltaX := deltaX + x;
        deltaY := deltaY + y;
        var qx, qy := Quantise(deltaX, TileUnit), Quantise(deltaY, TileUnit);
        calls := calls + [TranslateSection(selectedTile.value, qx.0, qy.0)];
        deltaX := qx.1;
        deltaY := qy.1;
      } else if |selectedFeatures| > 0 {
        TranslateFeatures(x, y, batchMoved);
      }
      previousTranslationOpen := true;
    }

    /**
     * The feature branch of `TranslateSelection`: the batch is offered the
     * whole 16-unit cells accumulated so far; if it moved, every selected
     * cell moves with it and only the remainder is kept.
     */
    method TranslateFeatures(x: int, y: int, batchMoved: bool)
      requires Valid() && selectedStartPosition.None? && selectedTile.None? && |selectedFeatures| > 0
      modifies this`selectedFeatures, this`deltaX, this`deltaY, this`calls
      ensures Valid()
      ensures var qx, qy := Quantise(old(deltaX) + x, FeatureUnit), Quantise(old(deltaY) + y, FeatureUnit);
        calls == old(calls) + [TranslateFeatureBatch(old(selectedFeatures), qx.0, qy.0)]
        && (batchMoved ==> selectedFeatures == Shifted(old(selectedFeatures), qx.0, qy.0) && deltaX == qx.1 && deltaY == qy.1)
        && (!batchMoved ==> selectedFeatures == old(selectedFeatures) && deltaX == old(deltaX) + x && deltaY == old(deltaY) + y)
    {
      deltaX := deltaX + x;
      deltaY := deltaY + y;
      var qx, qy := Quantise(deltaX, FeatureUnit), Quantise(deltaY, FeatureUnit);
      var quantX, quantY := qx.0, qy.0;
      calls := calls + [TranslateFeatureBatch(selectedFeatures, quantX, quantY)];
      if batchMoved {
        var tmp := selectedFeatures;
        var moved := [];
        for i := 0 to |tmp|
          invariant moved == Shifted(tmp[..i], quantX, quantY)
        {
          assert tmp[..i + 1][..i] == tmp[..i];
          moved := moved + [GridCoordinates(tmp[i].x + quantX, tmp[i].y + quantY)];
        }
        assert tmp[..|tmp|] == tmp;
        selectedFeatures := moved;
        deltaX := qx.1;
        deltaY := qy.1;
      }
    }

    /** `SelectTile`: the tile becomes the selection; a tile selected before is neither merged nor flushed. */
    method SelectTile(index: int)
      requires Valid()
      modifies this`selectedFeatures, this`selectedTile, this`selectedStartPosition, this`hasSelection
      ensures Valid()
      ensures selectedTile == Some(index) && selectedFeatures == [] && selectedStartPosition == None
      ensures hasSelection == if old(selectedTile) == Some(index) then old(hasSelection) else true
    {
      SetSelectedTile(Some(index));
      selectedFeatures := [];
      SetSelectedStartPosition(None);
    }

    /** `SelectStartPosition`: a selected tile is merged down, then the start position becomes the selection. */
    method SelectStartPosition(index: int)
      requires Valid()
      modifies this`selectedFeatures, this`selectedTile, this`selectedStartPosition, this`hasSelection, this`calls
      ensures Valid()
      ensures selectedStartPosition == Some(index) && selectedFeatures == [] && selectedTile == None
      ensures calls == old(calls) + MergeOf(old(selectedTile))
      ensures hasSelection == if old(selectedStartPosition) == Some(index) then old(hasSelection) else true
    {
      MergeDownSelectedTile();
      selectedFeatures := [];
      SetSelectedStartPosition(Some(index));
    }

    /**
     * `SelectFeature`: the one cell becomes the selection, a selected tile
     * is merged down. `HasSelection` is recomputed only if a tile or start
     * position was deselected on the way.
     */
    method SelectFeature(coords: GridCoordinates)
      requires Valid()
      modifies this`selectedFeatures, this`selectedTile, this`selectedStartPosition, this`hasSelection, this`calls
      ensures Valid()
      ensures selectedFeatures == [coords] && selectedTile == None && selectedStartPosition == None
      ensures calls == old(calls) + MergeOf(old(selectedTile))
      ensures hasSelection == if old(selectedTile).Some? || old(selectedStartPosition).Some? then true else old(hasSelection)
    {
      selectedFeatures := [coords];
      MergeDownSelectedTile();
      SetSelectedStartPosition(None);
    }

    /**
     * `DragDropFeature(name, x, y)`: with a map open and the point on the
     * height grid at `featurePos`, asks the handler to place the feature
     * there; if it was placed (`placed`), selects its grid cell.
     * `toGridCoordinates` converts a height-grid point to a feature cell.
     */
    method DragDropFeature(name: string, x: int, y: int, mapOpen: bool, featurePos: Option<Point>,
                           placed: bool, toGridCoordinates: Point -> GridCoordinates)
      requires Valid()
      modifies this`selectedFeatures, this`selectedTile, this`selectedStartPosition, this`hasSelection, this`calls
      ensures Valid()
      ensures !mapOpen || featurePos.None? ==>
        calls == old(calls) && selectedFeatures == old(selectedFeatures)
        && selectedTile == old(selectedTile) && selectedStartPosition == old(selectedStartPosition)
        && hasSelection == old(hasSelection)
      ensures mapOpen && featurePos.Some? && !placed ==>
        calls == old(calls) + [TryPlaceFeature(name, featurePos.value.x, featurePos.value.y)]
        && selectedFeatures == old(selectedFeatures)
        && selectedTile == old(selectedTile) && selectedStartPosition == old(selectedStartPosition)
        && hasSelection == old(hasSelection)
      ensures mapOpen && featurePos.Some? && placed ==>
        calls == old(calls) + [TryPlaceFeature(name, featurePos.value.x, featurePos.value.y)] + MergeOf(old(selectedTile))
        && selectedFeatures == [toGridCoordinates(featurePos.value)]
        && selectedTile == None && selectedStartPosition == None
        && hasSelection == if old(selectedTile).Some? || old(selectedStartPosition).Some? then true else old(hasSelection)
    {
      if !mapOpen {
        return;
      }
      if featurePos.Some? {
        calls := calls + [TryPlaceFeature(name, featurePos.value.x, featurePos.value.y)];
        if placed {
          SelectFeature(toGridCoordinates(featurePos.value));
        }
      }
    }

    /**
     * `DragDropTile(id, x, y)`: asks the handler to place the section at
     * the 32-unit cell containing the point (C# division); if it got an
     * index (not -1), selects it.
     */
    method DragDropTile(id: int, x: int, y: int, index: int)
      requires Valid()
      modifies this`selectedFeatures, this`selectedTile, this`selectedStartPosition, this`hasSelection, this`calls
      ensures Valid()
      ensures calls == old(calls) + [PlaceSection(id, TDiv(x, TileUnit), TDiv(y, TileUnit))]
      ensures index != -1 ==> selectedTile == Some(index) && selectedFeatures == [] && selectedStartPosition == None
      ensures index != -1 ==> hasSelection == if old(selectedTile) == Some(index) then old(hasSelection) else true
      ensures index == -1 ==>
        selectedFeatures == old(selectedFeatures) && selectedTile == old(selectedTile)
        && selectedStartPosition == old(selectedStartPosition) && hasSelection == old(hasSelection)
    {
      var quantX := TDiv(x, TileUnit);
      var quantY := TDiv(y, TileUnit);
      calls := calls + [PlaceSection(id, quantX, quantY)];
      if index != -1 {
        SelectTile(index);
      }
    }

    /** `DragDropStartPosition(index, x, y)`: sets the start position, then selects it. */
    method DragDropStartPosition(index: int, x: int, y: int)
      requires Valid()
      modifies this`selectedFeatures, this`selectedTile, this`selectedStartPosition, this`hasSelection, this`calls
      ensures Valid()
      ensures calls == old(calls) + [SetStartPosition(index, x, y)] + MergeOf(old(selectedTile))
      ensures selectedStartPosition == Some(index) && selectedFeatures == [] && selectedTile == None
      ensures hasSelection == if old(selectedStartPosition) == Some(index) then old(hasSelection) else true
    {
      calls := calls + [SetStartPosition(index, x, y)];
      SelectStartPosition(index);
    }

    method StartBandbox(x: int, y: int)
      modifies this`bandboxCalls
      ensures bandboxCalls == old(bandboxCalls) + [BandboxCall.StartBandbox(x, y)]
    {
      bandboxCalls := bandboxCalls + [BandboxCall.StartBandbox(x, y)];
    }

    method GrowBandbox(x: int, y: int)
      modifies this`bandboxCalls
      ensures bandboxCalls == old(bandboxCalls) + [BandboxCall.GrowBandbox(x, y)]
    {
      bandboxCalls := bandboxCalls + [BandboxCall.GrowBandbox(x, y)];
    }

    method CommitBandbox()
      modifies this`bandboxCalls
      ensures bandboxCalls == old(bandboxCalls) + [BandboxCall.CommitBandbox]
    {
      bandboxCalls := bandboxCalls + [BandboxCall.CommitBandbox];
    }
  }

  /**
   * `HasSelection` lags behind the feature list: selecting a feature with
   * nothing selected leaves it false, and clearing a feature selection that
   * replaced a tile leaves it true.
   */
  method HasSelectionLags() returns (selectedAfterSelect: bool, featuresAfterSelect: nat,
                                     selectedAfterClear: bool, featuresAfterClear: nat)
    ensures featuresAfterSelect == 1 && !selectedAfterSelect
    ensures featuresAfterClear == 0 && selectedAfterClear
  {
    var m := new SelectionModel();
    m.SelectFeature(GridCoordinates(3, 4));
    selectedAfterSelect, featuresAfterSelect := m.hasSelection, |m.selectedFeatures|;
    m.SelectTile(7);
    m.SelectFeature(GridCoordinates(3, 4));
    m.ClearSelection();
    selectedAfterClear, featuresAfterClear := m.hasSelection, |m.selectedFeatures|;
  }

  /** Clearing twice merges a selected tile down once: the second clear asks nothing of the handler. */
  method ClearTwiceMergesOnce(tile: int) returns (requests: seq<MapCall>)
    ensures requests == [MergeSection(tile)]
  {
    var m := new SelectionModel();
    m.SelectTile(tile);
    m.ClearSelection();
    m.ClearSelection();
    requests := m.calls;
  }
}
