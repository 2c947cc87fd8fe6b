/**
 * `MapCommandHandler`: turns the map control's mouse, keyboard and
 * drag-and-drop events into requests to the selection model.
 *
 * The selection model is the log `calls` of the requests it received. Its
 * two answers, whether a point is inside the selection and whether
 * something could be selected at a point, are parameters of `MouseDown`;
 * the query `IsInSelection` itself changes nothing and is not logged.
 */
module Presentation {
  import opened Geometry
  import opened Integers
  import opened Strings

  /** The requests the handler makes of the selection model. */
  datatype SelectionCall =
    | DragDropStartPosition(index: int, x: int, y: int)
    | DragDropTile(id: int, x: int, y: int)
    | DragDropFeature(name: string, x: int, y: int)
    | SelectAtPoint(x: int, y: int)
    | StartBandbox(x: int, y: int)
    | GrowBandbox(dx: int, dy: int)
    | TranslateSelection(dx: int, dy: int)
    | CommitBandbox
    | FlushTranslation
    | DeleteSelection
    | ClearSelection

  /** What was dropped on the map: a start-position marker or a piece of text. */
  datatype DragData = StartPositionData(positionNumber: int) | TextData(text: string)

  datatype Key = Delete | OtherKey(code: int)

  /**
   * Where a drop goes: a start-position marker to the start position; text
   * that parses as an `int` to the section of that id; any other text to
   * the feature of that name.
   */
  function RouteDrop(data: DragData, x: int, y: int): (r: SelectionCall)
    ensures r.DragDropStartPosition? <==> data.StartPositionData?
    ensures r.DragDropStartPosition? ==> r == DragDropStartPosition(data.positionNumber, x, y)
    ensures r.DragDropTile? <==> data.TextData? && TryParseInt32(data.text).Some?
    ensures r.DragDropTile? ==> r == DragDropTile(TryParseInt32(data.text).value, x, y)
    ensures r.DragDropFeature? <==> data.TextData? && TryParseInt32(data.text).None?
    ensures r.DragDropFeature? ==> r == DragDropFeature(data.text, x, y)
  {
    match data
    case StartPositionData(n) => DragDropStartPosition(n, x, y)
    case TextData(s) =>
      match TryParseInt32(s)
      case Some(id) => DragDropTile(id, x, y)
      case None => DragDropFeature(s, x, y)
  }

  /** A section id dragged as its decimal text is dropped as that section. */
  lemma SectionIdRoutesToTile(id: int, x: int, y: int)
    requires IsInt32(id)
    ensures RouteDrop(TextData(IntToString(id)), x, y) == DragDropTile(id, x, y)
  {
    ParseRendered(id);
  }

  /** A name with any character other than digits, signs, white space and NUL is dropped as a feature. */
  lemma NameRoutesToFeature(name: string, k: nat, x: int, y: int)
    requires k < |name|
    requires !IsDigit(name[k]) && name[k] != '-' && name[k] != '+' && !IsNumberWhite(name[k]) && name[k] != '\0'
    ensures RouteDrop(TextData(name), x, y) == DragDropFeature(name, x, y)
  {
    if TryParseInt32(name).Some? {
      ParsedCharacters(name);
    }
  }

  /** The movement a request reports: the deltas of translate and grow requests, nothing for the others. */
  function Movement(c: SelectionCall): Point {
    match c
    case GrowBandbox(dx, dy) => Point(dx, dy)
    case TranslateSelection(dx, dy) => Point(dx, dy)
    case _ => Origin
  }

  /** The total movement reported by a run of requests. */
  function Moved(cs: seq<SelectionCall>): Point {
    if cs == [] then Origin else Add(Moved(cs[..|cs| - 1]), Movement(cs[|cs| - 1]))
  }

  /** A request appended to a run adds its movement to what the run reports. */
  lemma MovedAppend(cs: seq<SelectionCall>, c: SelectionCall)
    ensures Moved(cs + [c]) == Add(Moved(cs), Movement(c))
  {
    assert (cs + [c])[..|cs|] == cs;
  }

  /** A request that reports no movement leaves the run's movement as it was. */
  lemma MovedAppendStill(cs: seq<SelectionCall>, c: SelectionCall)
    requires Movement(c) == Origin
    ensures Moved(cs + [c]) == Moved(cs)
  {
    MovedAppend(cs, c);
  }

  /** The steps between successive mouse positions. */
  function Steps(ps: seq<Point>): (r: seq<Point>)
    requires |ps| > 0
    ensures |r| == |ps| - 1
    ensures forall i :: 0 <= i < |r| ==> r[i] == Sub(ps[i + 1], ps[i])
  {
    if |ps| == 1 then [] else Steps(ps[..|ps| - 1]) + [Sub(ps[|ps| - 1], ps[|ps| - 2])]
  }

  function SumPoints(ds: seq<Point>): Point {
    if ds == [] then Origin else Add(SumPoints(ds[..|ds| - 1]), ds[|ds| - 1])
  }

  /**
   * Reporting each move relative to the previous mouse position loses
   * nothing: the steps of a gesture add up to its last position minus its
   * first.
   */
  lemma {:induction false} StepsTelescope(ps: seq<Point>)
    requires |ps| > 0
    ensures Add(ps[0], SumPoints(Steps(ps))) == ps[|ps| - 1]
  {
    if |ps| > 1 {
      var front := ps[..|ps| - 1];
      StepsTelescope(front);
      assert Steps(ps)[..|ps| - 2] == Steps(front);
    }
  }

  class MapCommandHandler {
    var mouseDown: bool
    var lastMousePos: Point
    var bandboxMode: bool
    /** What the selection model was asked, oldest first. */
    var calls: seq<SelectionCall>
    /** Where the mouse last went down, and the requests made before and since. */
    ghost var downPos: Point
    ghost var beforeDown: seq<SelectionCall>
    ghost var sinceDown: seq<SelectionCall>

    /**
     * A bandbox is only open while the button is down, and while it is
     * down the movement reported since it went down is exactly how far the
     * mouse has moved.
     */
    ghost predicate Valid()
      reads this
    {
      (bandboxMode ==> mouseDown)
      && calls == beforeDown + sinceDown
      && (mouseDown ==> Add(downPos, Moved(sinceDown)) == lastMousePos)
    }

    constructor ()
      ensures Valid() && !mouseDown && !bandboxMode && calls == []
    {
      mouseDown := false;
      lastMousePos := Origin;
      bandboxMode := false;
      calls := [];
      downPos := Origin;
      beforeDown := [];
      sinceDown := [];
    }

    /** Passes on a request that reports no movement. */
    method Send(request: SelectionCall)
      requires Valid() && Movement(request) == Origin
      modifies this`calls, this`sinceDown
      ensures Valid() && calls == old(calls) + [request]
    {
      MovedAppendStill(sinceDown, request);
      calls := calls + [request];
      sinceDown := sinceDown + [request];
    }

    /** `DragDrop(data, x, y)`: one request, chosen by `RouteDrop`. */
    method DragDrop(data: DragData, x: int, y: int)
      requires Valid()
      modifies this`calls, this`sinceDown
      ensures Valid() && calls == old(calls) + [RouteDrop(data, x, y)]
    {
      match data {
        case StartPositionData(n) =>
          Send(DragDropStartPosition(n, x, y));
        case TextData(s) =>
          var parsed := TryParseInt32(s);
          if parsed.Some? {
            Send(DragDropTile(parsed.value, x, y));
          } else {
            Send(DragDropFeature(s, x, y));
          }
      }
    }

    /**
     * `MouseDown(x, y)`: outside the selection the handler tries to select
     * at the point (`selected` is the answer) and, failing that, opens a
     * bandbox there.
     */
    method MouseDown(x: int, y: int, inSelection: bool, selected: bool)
      requires Valid()
      modifies this
      ensures Valid() && mouseDown && lastMousePos == Point(x, y)
      ensures inSelection ==> calls == old(calls) && bandboxMode == old(bandboxMode)
      ensures !inSelection && selected ==> calls == old(calls) + [SelectAtPoint(x, y)] && bandboxMode == old(bandboxMode)
      ensures !inSelection && !selected ==> calls == old(calls) + [SelectAtPoint(x, y), StartBandbox(x, y)] && bandboxMode
    {
      mouseDown := true;
      lastMousePos := Point(x, y);
      if !inSelection {
        calls := calls + [SelectAtPoint(x, y)];
        if !selected {
          calls := calls + [StartBandbox(x, y)];
          bandboxMode := true;
        }
      }
      downPos := lastMousePos;
      beforeDown := calls;
      sinceDown := [];
    }

    /**
     * `MouseMove(x, y)`: while the button is down, reports the step from
     * the last position, to the bandbox if one is open and to the selection
     * otherwise. The position is recorded whether or not the button is down.
     */
    method MouseMove(x: int, y: int)
      requires Valid()
      modifies this`lastMousePos, this`calls, this`sinceDown
      ensures Valid() && lastMousePos == Point(x, y)
      ensures !mouseDown ==> calls == old(calls)
      ensures mouseDown && bandboxMode ==> calls == old(calls) + [GrowBandbox(x - old(lastMousePos).x, y - old(lastMousePos).y)]
      ensures mouseDown && !bandboxMode ==> calls == old(calls) + [TranslateSelection(x - old(lastMousePos).x, y - old(lastMousePos).y)]
    {
      if mouseDown {
        var c := if bandboxMode then GrowBandbox(x - lastMousePos.x, y - lastMousePos.y)
                 else TranslateSelection(x - lastMousePos.x, y - lastMousePos.y);
        MovedAppend(sinceDown, c);
        sinceDown := sinceDown + [c];
        calls := calls + [c];
      }
      lastMousePos := Point(x, y);
    }

    /**
     * `MouseUp(x, y)`: commits an open bandbox, and otherwise flushes the
     * translation, even when the button was not down.
     */
    method MouseUp(x: int, y: int)
      requires Valid()
      modifies this`mouseDown, this`bandboxMode, this`calls, this`sinceDown
      ensures Valid() && !mouseDown && !bandboxMode
      ensures calls == old(calls) + [if old(bandboxMode) then CommitBandbox else FlushTranslation]
    {
      if bandboxMode {
        calls := calls + [CommitBandbox];
        sinceDown := sinceDown + [CommitBandbox];
        bandboxMode := false;
      } else {
        calls := calls + [FlushTranslation];
        sinceDown := sinceDown + [FlushTranslation];
      }
      mouseDown := false;
    }

    /** `KeyDown(key)`: the Delete key deletes the selection; other keys do nothing. */
    method KeyDown(key: Key)
      requires Valid()
      modifies this`calls, this`sinceDown
      ensures Valid()
      ensures calls == old(calls) + (if key == Delete then [DeleteSelection] else [])
    {
      if key == Delete {
        Send(DeleteSelection);
      }
    }

    /** `LostFocus()`: the selection is cleared. */
    method LostFocus()
      requires Valid()
      modifies this`calls, this`sinceDown
      ensures Valid() && calls == old(calls) + [ClearSelection]
    {
      Send(ClearSelection);
    }
  }

  /**
   * A press, two moves and a release outside any selection: the bandbox is
   * opened at the press, grown by the two steps and committed.
   */
  method BandboxGesture() returns (requests: seq<SelectionCall>)
    ensures requests == [SelectAtPoint(10, 10), StartBandbox(10, 10), GrowBandbox(5, -3), GrowBandbox(2, 8), CommitBandbox]
  {
    var h := new MapCommandHandler();
    h.MouseDown(10, 10, false, false);
    h.MouseMove(15, 7);
    h.MouseMove(17, 15);
    h.MouseUp(17, 15);
    requests := h.calls;
  }
}
