/**
 * `ChangeStartPositionOperation`: the undoable change of one start
 * position of a map.
 *
 * The map is represented by its attributes, and those only by their start
 * positions; `MapAttributes` gives `GetStartPosition` and
 * `SetStartPosition` the contract of a slot array, where each slot holds a
 * position or nothing.
 */
module Operations {
  import opened Geometry

  class MapAttributes {
    var startPositions: seq<Option<Point>>

    constructor (startPositions: seq<Option<Point>>)
      ensures this.startPositions == startPositions
    {
      this.startPositions := startPositions;
    }

    method GetStartPosition(index: int) returns (p: Option<Point>)
      requires 0 <= index < |startPositions|
      ensures p == startPositions[index]
    {
      p := startPositions[index];
    }

    method SetStartPosition(index: int, p: Option<Point>)
      requires 0 <= index < |startPositions|
      modifies this
      ensures startPositions == old(startPositions)[index := p]
    {
      startPositions := startPositions[index := p];
    }
  }

  class ChangeStartPositionOperation {
    const mapAttributes: MapAttributes
    const index: int
    const newPosition: Point
    /** What slot `index` held before `Execute`; nothing until then. */
    var oldPosition: Option<Point>

    constructor (mapAttributes: MapAttributes, index: int, newPosition: Point)
      ensures this.mapAttributes == mapAttributes && this.index == index && this.newPosition == newPosition
      ensures oldPosition == None
    {
      this.mapAttributes := mapAttributes;
      this.index := index;
      this.newPosition := newPosition;
      oldPosition := None;
    }

    /** `Execute()`: remembers what slot `index` holds, then puts the new position there. */
    method Execute()
      requires 0 <= index < |mapAttributes.startPositions|
      modifies this, mapAttributes
      ensures oldPosition == old(mapAttributes.startPositions[index])
      ensures mapAttributes.startPositions == old(mapAttributes.startPositions)[index := Some(newPosition)]
    {
      oldPosition := mapAttributes.GetStartPosition(index);
      mapAttributes.SetStartPosition(index, Some(newPosition));
    }

    /** `Undo()`: puts back what slot `index` held, which may be nothing. */
    method Undo()
      requires 0 <= index < |mapAttributes.startPositions|
      modifies mapAttributes
      ensures mapAttributes.startPositions == old(mapAttributes.startPositions)[index := oldPosition]
    {
      mapAttributes.SetStartPosition(index, oldPosition);
    }

    /**
     * `Combine(newOp)`: one operation from this one's starting point to
     * `newOp`'s end point. An operation for another slot is refused
     * (`None`, where the source throws `ArgumentException`). Neither
     * operation and not the map is changed.
     */
    method Combine(newOp: ChangeStartPositionOperation) returns (combined: Option<ChangeStartPositionOperation>)
      ensures newOp.index != index ==> combined.None?
      ensures newOp.index == index ==>
        combined.Some? && fresh(combined.value)
        && combined.value.mapAttributes == mapAttributes && combined.value.index == index
        && combined.value.newPosition == newOp.newPosition && combined.value.oldPosition == oldPosition
    {
      if newOp.index != index {
        return None;
      }
      var n := new ChangeStartPositionOperation(mapAttributes, index, newOp.newPosition);
      n.oldPosition := oldPosition;
      combined := Some(n);
    }
  }

  /**
   * Two changes of the same slot executed one after the other and then
   * undone as one combined operation leave every start position as it was
   * before the first, including a slot that held nothing.
   */
  method UndoCombined(first: ChangeStartPositionOperation, second: ChangeStartPositionOperation)
    requires first.mapAttributes == second.mapAttributes && first.index == second.index && first != second
    requires 0 <= first.index < |first.mapAttributes.startPositions|
    modifies first, second, first.mapAttributes
    ensures first.mapAttributes.startPositions == old(first.mapAttributes.startPositions)
  {
    first.Execute();
    second.Execute();
    var combined := first.Combine(second);
    combined.value.Undo();
  }

  /** Execute then Undo of one operation restores every start position. */
  method UndoExecuted(op: ChangeStartPositionOperation)
    requires 0 <= op.index < |op.mapAttributes.startPositions|
    modifies op, op.mapAttributes
    ensures op.mapAttributes.startPositions == old(op.mapAttributes.startPositions)
  {
    op.Execute();
    op.Undo();
  }
}
