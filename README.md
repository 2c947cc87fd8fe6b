# Mappy selection, gesture and parsing core in Dafny

This project models the interactive core of the Mappy map editor and
proves properties of the model:

- **The selection model** (`SelectionModel`). It keeps three kinds of selection, and at most one of them is populated at a time:
  - a floating tile;
  - a list of feature grid cells;
  - a start position.

  Selecting, clearing, deleting and drag-dropping keep these kinds apart. A deselected tile is merged down into the terrain. Pointer drags are quantised into whole 32-unit tile cells or 16-unit feature cells, and the remainder is kept for the next move.
- **The two gesture state machines**:
  - `MapCommandHandler` turns mouse and key events into selection requests;
  - the mouse, key and fill handlers of `MapViewViewModel` do the same for the dispatcher. This covers the bandbox fill modes, the sporadic fill over a grid of slots, and the point count of a line of features.
- **`MapTile`**: a graphics grid with a height grid at twice its resolution. Merging a tile into another merges the height grid with every coordinate doubled.
- **The TDF parser**: a line-oriented recursive-descent reader of `[name] { key=value; ... }` blocks. It hands begin, property and end events to an adapter, and its errors carry the line count.
- **`FeatureRecord.FromTdfNode`**: reads a feature record from a TDF node, filling in defaults for missing keys.
- **`ChangeStartPositionOperation`**: the undoable change of a start position, with Execute, Undo and Combine.
- **The minimap's viewport rectangle**: scaled from map units to minimap pixels.

Collaborators are represented as follows:

- **Call logs.** Each collaborator the core calls is a log of the requests it received, stored in a field of the class that calls it (`calls`, `bandboxCalls`, `events`). Each log is a sequence of a datatype with one constructor per request.
- **Parameters.** What a collaborator answers is a parameter of the operation that asks. Examples: whether a feature batch could move, the index a placed section got, the feature each placement produced, the random draw per slot, and the placement mode.
- **Truncating arithmetic.** C#'s truncating `/` and `%` are `Integers.TDiv` and `Integers.TMod`.

Some behaviours of the code are modelled as written and made explicit by a lemma or a contract:

- `SelectTile` neither merges nor flushes a tile that was already selected. Only `SelectStartPosition`, `SelectFeature` and `ClearSelection` merge down.
- The drag remainders (`deltaX`, `deltaY`) are reset only by `FlushTranslation`. Selecting something else keeps them.
- Because C# division truncates toward zero, splitting a drag into moves of mixed sign issues different cells than one drag of the same total (`Selection.SplitDragDiffers`). With non-negative moves the two agree (`Selection.ReplayForward`).
- `HasSelection` is recomputed only when the selected tile or start position changes value. It therefore stays false after selecting a feature with nothing selected, and stays true after clearing a feature selection that had replaced a tile (`Selection.HasSelectionLags`).
- A sporadic fill at magnitude 0 still attempts the slots whose draw is exactly 0.0 (`MapView.ZeroMagnitudeAttemptsOnlyZeroDraws`).
- The start-position marker reads height cell 0 for coordinates from -15 to -1, because the cell index truncates toward zero (`MapView.CellInsideGrid`).
- `Undo` before `Execute` clears the slot, because the remembered position is still nothing.
- The minimap divides by zero for a map one cell wide or four cells high. The scaling functions require a non-zero divisor.
- When the input ends inside a block body, the parser dereferences a null line. The model reports this as the `NullReference` error rather than a `ParseException`.

## Model

| member | source | states |
|---|---|---|
| Selection.Quantise | Mappy/Models/Session/SelectionModel.cs:193-202 | the cells issued times the cell size plus the remainder kept is the accumulated drag; the remainder is shorter than a cell and on the same side of zero as the drag |
| Selection.ReplayLossless | Mappy/Models/Session/SelectionModel.cs:191-203 | over any sequence of moves, the cells issued times 32 (or 16) plus the final remainder equal the starting remainder plus the total dragged, and the remainder stays shorter than a cell |
| Selection.ReplayForward | Mappy/Models/Session/SelectionModel.cs:191-203 | with a non-negative remainder and non-negative moves, splitting a drag issues the same cells and leaves the same remainder as one move with the whole drag |
| Selection.SplitDragDiffers | Mappy/Models/Session/SelectionModel.cs:193-202 | dragging a tile 40 then -10 issues one cell and keeps -2, while one drag of 30 issues none and keeps 30 |
| Selection.Shifted | Mappy/Models/Session/SelectionModel.cs:222-229 | the refilled feature list has the same length and order, each cell moved by (quantX, quantY) |
| Selection.ShiftedCompose | Mappy/Models/Session/SelectionModel.cs:225-229 | two successive batch moves of the selected cells equal one move by the summed offsets |
| Selection.ShiftedInverse | Mappy/Models/Session/SelectionModel.cs:225-229 | moving the selected cells back by the opposite offsets restores the list |
| Selection.Removals | Mappy/Models/Session/SelectionModel.cs:158-161 | one RemoveFeature per selected cell, with that cell's coordinates, in selection order |
| Selection.MergeOf | Mappy/Models/Session/SelectionModel.cs:327-334 | a MergeSection request exactly when a tile is selected, for that tile; none otherwise |
| Selection.SelectionModel.constructor | Mappy/Models/Session/SelectionModel.cs:38-47 | nothing is selected, no drag is open, both remainders are 0 and nothing has been requested |
| Selection.SelectionModel.OnSelectionChanged | Mappy/Models/Session/SelectionModel.cs:320-325 | HasSelection becomes whether any of the three kinds is populated |
| Selection.SelectionModel.SetSelectedTile | Mappy/Models/Session/SelectionModel.cs:102-116 | the tile takes the new value; HasSelection is recomputed only when the value changed |
| Selection.SelectionModel.SetSelectedStartPosition | Mappy/Models/Session/SelectionModel.cs:118-132 | the start position takes the new value; HasSelection is recomputed only when the value changed |
| Selection.SelectionModel.MergeDownSelectedTile | Mappy/Models/Session/SelectionModel.cs:327-334 | a selected tile is merged once and deselected; with no tile nothing is requested |
| Selection.SelectionModel.FlushTranslation | Mappy/Models/Session/SelectionModel.cs:239-245 | both remainders become 0, the drag is closed and FlushTranslation is forwarded |
| Selection.SelectionModel.ClearSelection | Mappy/Models/Session/SelectionModel.cs:142-152 | flushes only if a drag is open; afterwards nothing is selected and a selected tile has been merged exactly once |
| Selection.SelectionModel.DeleteSelection | Mappy/Models/Session/SelectionModel.cs:154-175 | by priority: every selected feature is removed in order, or else the tile, or else the start position; with nothing selected nothing is requested; afterwards nothing is selected |
| Selection.SelectionModel.TranslateSelection | Mappy/Models/Session/SelectionModel.cs:182-237 | a start position moves one to one; a tile always gets TranslateSection with the whole 32-unit cells accumulated, keeping the remainder; features go through the batch call; the drag is marked open every time |
| Selection.SelectionModel.TranslateFeatures | Mappy/Models/Session/SelectionModel.cs:204-234 | the batch is offered the whole 16-unit cells; if it moved, every cell is shifted and only the remainders are kept; if not, the cells and the full accumulated deltas are kept |
| Selection.SelectionModel.SelectTile | Mappy/Models/Session/SelectionModel.cs:298-303 | the tile becomes the only selection with no merge and no flush, even when another tile was selected |
| Selection.SelectionModel.SelectStartPosition | Mappy/Models/Session/SelectionModel.cs:305-310 | a selected tile is merged once; the start position becomes the only selection |
| Selection.SelectionModel.SelectFeature | Mappy/Models/Session/SelectionModel.cs:312-318 | the selection is exactly the one cell; a selected tile is merged down first; the start position is cleared |
| Selection.SelectionModel.DragDropFeature | Mappy/Models/Session/SelectionModel.cs:247-262 | with no map or no height cell nothing happens; otherwise placement is requested at the height cell, and the feature's grid cell is selected only if it was placed, and then HasSelection turns true only if a tile or start position was selected |
| Selection.SelectionModel.DragDropTile | Mappy/Models/Session/SelectionModel.cs:264-274 | the section is placed at the 32-unit cell (truncating division) and selected unless the index is -1; HasSelection turns true unless that section was already selected, and is unchanged for -1 |
| Selection.SelectionModel.DragDropStartPosition | Mappy/Models/Session/SelectionModel.cs:276-281 | the start position is set and then becomes the only selection; HasSelection turns true unless that position was already selected |
| Selection.SelectionModel.StartBandbox | Mappy/Models/Session/SelectionModel.cs:283-286 | forwarded to the bandbox behaviour |
| Selection.SelectionModel.GrowBandbox | Mappy/Models/Session/SelectionModel.cs:288-291 | forwarded to the bandbox behaviour |
| Selection.SelectionModel.CommitBandbox | Mappy/Models/Session/SelectionModel.cs:293-296 | forwarded to the bandbox behaviour |
| Selection.HasSelectionLags | Mappy/Models/Session/SelectionModel.cs:312-325 | HasSelection stays false after a feature is selected from nothing, and stays true after the features that replaced a tile are cleared |
| Selection.ClearTwiceMergesOnce | Mappy/Models/Session/SelectionModel.cs:142-152 | clearing a selected tile twice issues exactly one MergeSection |
| Presentation.RouteDrop | Mappy/Presentation/MapCommandHandler.cs:24-44 | a start-position payload goes to DragDropStartPosition, text that parses as an int to DragDropTile with that id, any other text to DragDropFeature; each in both directions |
| Presentation.SectionIdRoutesToTile | Mappy/Presentation/MapCommandHandler.cs:33-38 | a section id dragged as its decimal text is dropped as that section |
| Presentation.NameRoutesToFeature | Mappy/Presentation/MapCommandHandler.cs:35-42 | text with a character that cannot occur in an integer is dropped as a feature of that name |
| Presentation.Steps | Mappy/Presentation/MapCommandHandler.cs:72-80 | each reported delta is the new position minus the previous one |
| Presentation.StepsTelescope | Mappy/Presentation/MapCommandHandler.cs:61-87 | the deltas reported over a drag add up to the last position minus the first |
| Presentation.MapCommandHandler.constructor | Mappy/Presentation/MapCommandHandler.cs:19-22 | the button is up, no bandbox is open and nothing has been requested |
| Presentation.MapCommandHandler.Send | Mappy/Presentation/MapCommandHandler.cs:104-115 | a request that reports no movement is appended and the movement bookkeeping still holds |
| Presentation.MapCommandHandler.DragDrop | Mappy/Presentation/MapCommandHandler.cs:24-44 | exactly the one request RouteDrop chooses |
| Presentation.MapCommandHandler.MouseDown | Mappy/Presentation/MapCommandHandler.cs:46-59 | records the press; outside the selection it tries SelectAtPoint, and it opens a bandbox only when nothing could be selected |
| Presentation.MapCommandHandler.MouseMove | Mappy/Presentation/MapCommandHandler.cs:61-87 | with the button up nothing is requested; with it down the step is sent as GrowBandbox or TranslateSelection; the position is recorded either way; the movement reported since the press equals how far the mouse went (Valid) |
| Presentation.MapCommandHandler.MouseUp | Mappy/Presentation/MapCommandHandler.cs:89-102 | CommitBandbox if a bandbox was open, otherwise FlushTranslation; afterwards the button is up and no bandbox is open |
| Presentation.MapCommandHandler.KeyDown | Mappy/Presentation/MapCommandHandler.cs:104-110 | Delete deletes the selection; any other key requests nothing |
| Presentation.MapCommandHandler.LostFocus | Mappy/Presentation/MapCommandHandler.cs:112-115 | the selection is cleared |
| Presentation.BandboxGesture | Mappy/Presentation/MapCommandHandler.cs:46-102 | a press on empty space, two moves and a release open, grow by the two steps, and commit a bandbox |
| MapView.ColumnIsDrawnSlots | Mappy/Models/MapViewViewModel.cs:820-826 | a slot is attempted in column w exactly when it is in range and its draw times 100 is at most the magnitude |
| MapView.AttemptsAreDrawnSlots | Mappy/Models/MapViewViewModel.cs:818-827 | a slot is attempted exactly when it lies in the (W/fW + 1) × (H/fH + 1) grid and its draw allows it |
| MapView.FullMagnitudeAttemptsEverySlot | Mappy/Models/MapViewViewModel.cs:818-827 | at magnitude 100, with draws in [0, 1), every slot is attempted, column by column |
| MapView.ZeroMagnitudeAttemptsOnlyZeroDraws | Mappy/Models/MapViewViewModel.cs:822 | at magnitude 0 exactly the slots whose draw is 0.0 are attempted |
| MapView.PlaceCount | Mappy/Models/MapViewViewModel.cs:810-811 | for a non-negative extent the count is at least 1, the last slot starts inside the bandbox and the slots together reach past its far edge |
| MapView.RequestsAt | Mappy/Models/MapViewViewModel.cs:824 | attempt i places the feature at (X + w·fW, Y + h·fH) of its slot |
| MapView.ResultsAt | Mappy/Models/MapViewViewModel.cs:824 | result i is what the placement at slot i produced |
| MapView.CalculatePointsNeeded | Mappy/Models/MapViewViewModel.cs:862-867 | the larger of width/fW and height/fH, with truncating division |
| MapView.PointsFitLongerSide | Mappy/Models/MapViewViewModel.cs:862-867 | for a non-negative rectangle the point count times the feature size fits the width or the height |
| MapView.LineRequestsAt | Mappy/Models/MapViewViewModel.cs:849-854 | point i places the feature where the interpolation puts point i |
| MapView.Present | Mappy/Models/MapViewViewModel.cs:328 | the placements that produced a feature, and only those |
| MapView.PresentSnoc | Mappy/Models/MapViewViewModel.cs:328 | one more placement adds its feature at the end exactly when it produced one, keeping the order of the rest |
| MapView.CellInsideGrid | Mappy/Models/MapViewViewModel.cs:635-642 | the sampled cell is inside the height grid exactly for coordinates from -15 to 16·cells - 1 |
| MapView.HeightCell | Mappy/Models/MapViewViewModel.cs:635-636 | the cell index is the coordinate divided by 16 rounding toward zero: a non-negative coordinate lies in [16·r, 16·r + 16), a negative one in (16·r - 16, 16·r] |
| MapView.SampledHeight | Mappy/Models/MapViewViewModel.cs:635-642 | the height of the truncated cell when both coordinates lie strictly between -16 and 16 times the grid size, otherwise 0; always 0 for an empty grid |
| MapView.MarkerLocation | Mappy/Models/MapViewViewModel.cs:645-647 | the image is centred on the point (the left part at most one pixel shorter than the right), and its top is 58 pixels plus half the height, rounded toward zero, above the point |
| MapView.MarkerRisesWithGround | Mappy/Models/MapViewViewModel.cs:645-647 | a marker on higher ground is drawn no lower, at the same horizontal position |
| MapView.ToFeatureIndex | Mappy/Models/MapViewViewModel.cs:753-756 | inside the feature grid the index is non-negative and decodes back to (x, y): y by division by the width and x by the remainder |
| MapView.FeatureDepth | Mappy/Models/MapViewViewModel.cs:762-770 | inside the feature grid the depth is at least 1000 and the depth minus 1000 decodes back to (x, y) |
| MapView.FeatureDepthOrder | Mappy/Models/MapViewViewModel.cs:762-770 | a feature earlier in reading order is drawn at a smaller depth |
| MapView.MapViewViewModel.constructor | Mappy/Models/MapViewViewModel.cs:61-71 | the button is up, no bandbox or fill flag is set and nothing has been requested |
| MapView.MapViewViewModel.SetFlag | Mappy/Models/MapViewViewModel.cs:273 | the flag passed by reference is set and the other two are unchanged |
| MapView.MapViewViewModel.MouseDownLeft | Mappy/Models/MapViewViewModel.cs:229-248 | inside the selection only the press is recorded; on an item the item is selected; on empty space the selection is cleared and a bandbox opened |
| MapView.MapViewViewModel.MouseDownBandboxEnableFlag | Mappy/Models/MapViewViewModel.cs:264-279 | on the Features tab it clears the selection, opens a bandbox and sets bandboxMode and the given flag; otherwise it is MouseDownLeft |
| MapView.MapViewViewModel.HandleMouseDownLeft | Mappy/Models/MapViewViewModel.cs:195-227 | a plain press in Selection mode is MouseDownLeft; Line, Fill and Sporadic set their own flag; Shift in Selection mode sets the fill flag; other modifiers do nothing |
| MapView.MapViewViewModel.MouseMove | Mappy/Models/MapViewViewModel.cs:281-307 | with the button up nothing is requested; with it down the step goes to GrowBandbox or TranslateSelection; the position is recorded either way |
| MapView.MapViewViewModel.SporadicFillFeatureInBandbox | Mappy/Models/MapViewViewModel.cs:800-833 | with no feature nothing is requested and the list is empty; otherwise one placement per attempted slot in column order, and the list holds what each produced |
| MapView.MapViewViewModel.FillColumn | Mappy/Models/MapViewViewModel.cs:820-826 | one column of the fill appends the attempts of that column |
| MapView.MapViewViewModel.FillSlot | Mappy/Models/MapViewViewModel.cs:822-825 | one slot is attempted exactly when its draw allows it |
| MapView.MapViewViewModel.PlaceAlongLine | Mappy/Models/MapViewViewModel.cs:835-860 | with no feature nothing is requested; otherwise one placement per point of CalculatePointsNeeded, at the interpolated location |
| MapView.MapViewViewModel.FillAndSelect | Mappy/Models/MapViewViewModel.cs:321-338 | the fill, then commit, clear and select the features placed |
| MapView.MapViewViewModel.LineAndSelect | Mappy/Models/MapViewViewModel.cs:339-348 | commit, then the line, then clear and select the features placed |
| MapView.MapViewViewModel.MouseUp | Mappy/Models/MapViewViewModel.cs:309-354 | in bandbox mode: no flag commits; else sporadic, fill and line in that order, each resetting only its own flag and bandboxMode; otherwise FlushTranslation; the button is up afterwards |
| MapView.MapViewViewModel.KeyDown | Mappy/Models/MapViewViewModel.cs:356-362 | Delete deletes the selection; any other key requests nothing |
| MapView.MapViewViewModel.LeaveFocus | Mappy/Models/MapViewViewModel.cs:364-367 | the selection is cleared |
| MapTiles.AttrIsHalfTile | Mappy/Data/MapTile.cs:10-13 | a height cell is 16 × 16, half a 32 × 32 graphics cell on each side |
| MapTiles.Doubled | Mappy/Data/MapTile.cs:46 | the height region is the graphics region with every coordinate and size doubled |
| MapTiles.DoubledFits | Mappy/Data/MapTile.cs:43-47 | a region that fits the graphics grids fits the height grids once doubled |
| MapTiles.HeightBlockFollowsTile | Mappy/Data/MapTile.cs:43-47 | the four height cells under a graphics cell are overwritten exactly when it is, each from the matching corner of the source cell |
| MapTiles.MapTile.constructor | Mappy/Data/MapTile.cs:20-32 | a width × height graphics grid of default squares and a (2·width) × (2·height) height grid of zeros |
| MapTiles.MapTile.Merge | Mappy/Data/MapTile.cs:43-47 | the graphics rectangle is merged as given and the height rectangle with every argument doubled; the 2:1 shape is kept |
| MapTiles.MapTile.MergeAll | Mappy/Data/MapTile.cs:38-41 | the whole other tile is merged with its corner at (x, y) |
| Grids.Grid.constructor | Mappy/Data/MapTile.cs:22-23 | a grid of the given size with every cell the default value |
| Grids.Grid.Set | Mappy/Data/MapTile.cs:29 | the cell takes the value and no other cell changes |
| Grids.Grid.Merge | Mappy/Data/MapTile.cs:45-46 | (assumed contract) the source rectangle is copied onto the target rectangle and every other cell is kept |
| Tdf.StripComment | TAUtil/Tdf/TdfParser.cs:34-38 | a prefix of the line with no "//" in it and none in the line starting before its end; when it is shorter than the line, a "//" starts right where it ends |
| Tdf.ExtractContent | TAUtil/Tdf/TdfParser.cs:32-42 | the content of a line never contains "//" |
| Tdf.NothingInteresting | TAUtil/Tdf/TdfParser.cs:51-68 | no interesting line lies in a range exactly when every line in it has empty content |
| Tdf.ExtractContentIdempotent | TAUtil/Tdf/TdfParser.cs:32-42 | extracting the content twice is the same as once |
| Tdf.ParseBlockName | TAUtil/Tdf/TdfParser.cs:99-108 | a name exactly for lines that start with "[" and end with "]", and the line is that name in brackets |
| Tdf.BlockNameRoundTrip | TAUtil/Tdf/TdfParser.cs:99-108 | a bracketed name parses back to the name |
| Tdf.ChompStatement | TAUtil/Tdf/TdfParser.cs:115-119 | a prefix of the line with no ";", which is either the whole line or cut at the first ";" |
| Tdf.SplitAtFirst | TAUtil/Tdf/TdfParser.cs:121 | the text before the first '=' and everything after it, which may hold more '='; none when there is no '=' |
| Tdf.ParseProperty | TAUtil/Tdf/TdfParser.cs:110-129 | not a property exactly when the chomped line has no '=', and then the body reported is the chomped line; a property otherwise, whose key and value are the trimmed text before and after the chomped line's first '=' |
| Tdf.PropertyParts | TAUtil/Tdf/TdfParser.cs:115-128 | the key holds no '=' or ';' and the value no ';' |
| Tdf.PropertyRoundTrip | TAUtil/Tdf/TdfParser.cs:110-129 | writing a trimmed key and value as key=value; and reading the line gives them back |
| Tdf.BalancedPrefixes | TAUtil/Tdf/TdfParser.cs:44-49 | Balanced means ending at depth 0 and never closing more blocks than were open |
| Tdf.EnclosedPrefixes | TAUtil/Tdf/TdfParser.cs:86-96 | Enclosed means at least one block is open at every property |
| Tdf.WrapBlock | TAUtil/Tdf/TdfParser.cs:44-49 | a begin, a balanced body and an end form a balanced block whose properties are all enclosed |
| Tdf.BalancedAppend | TAUtil/Tdf/TdfParser.cs:86-96 | successive balanced statements stay balanced |
| Tdf.Message | TAUtil/Tdf/TdfParser.cs:131-139 | the message starts with "line N: Expected X, got " and ends with ", got Y" |
| Tdf.ReadsWithAppend | TAUtil/Tdf/TdfParser.cs:77-96 | reading one run of lines after another produces the one run of events after the other |
| Tdf.ReadsAsUnique | TAUtil/Tdf/TdfParser.cs:77-108 | the interesting lines determine the events: two event sequences read from the same lines are equal |
| Tdf.StatementsOf | TAUtil/Tdf/TdfParser.cs:85-96 | the statements of a body, read up to the closing "}": a successful reading uses at least that line and no more lines than there are; a reading that fails records its fault, the events passed on before it and the lines used up to and including the faulty one, and one stopped by the end of input has used every line |
| Tdf.StatementOf | TAUtil/Tdf/TdfParser.cs:88-95 | one statement, a nested block for a "[" line and a property otherwise (a line with no "=" is the fault "Expected <key>=<value>" naming it): a reading uses at least its line and no more lines than there are; a reading that fails records its fault, the events passed on before it and the lines used up to and including the faulty one, and one stopped by the end of input has used every line |
| Tdf.BlockOf | TAUtil/Tdf/TdfParser.cs:44-49 | a header line and its body (a header that does not parse is the fault "Expected [<name>]" naming it): a reading uses at least the header line and no more lines than there are; a reading that fails records its fault, the events passed on before it and the lines used up to and including the faulty one, and one stopped by the end of input has used every line |
| Tdf.BodyOf | TAUtil/Tdf/TdfParser.cs:77-97 | a "{" line and the statements after it; a missing first line is the fault of a missing "{", any other first line "Expected {" naming it: a successful reading uses at least that line and no more lines than there are; a reading that fails records its fault, the events passed on before it and the lines used up to and including the faulty one, and one stopped by the end of input has used every line |
| Tdf.FileOf | TAUtil/Tdf/TdfParser.cs:19-30 | one block after another to the end of input: a successful reading uses every line; a failed one records the block's fault, the events of the blocks before it and the lines used |
| Tdf.StatementsSound | TAUtil/Tdf/TdfParser.cs:85-96 | what the statements read is balanced, and the lines used read as those events followed by the block's end |
| Tdf.StatementSound | TAUtil/Tdf/TdfParser.cs:88-95 | what a statement reads is balanced, read from the lines used, and for a "[" line one block named by its header |
| Tdf.BlockSound | TAUtil/Tdf/TdfParser.cs:44-49 | what a block reads is one block named by its header line, read from the lines used |
| Tdf.BodySound | TAUtil/Tdf/TdfParser.cs:77-97 | a body read starts with "{", and its statements are balanced and read from the lines after it, followed by the block's end |
| Tdf.FileSound | TAUtil/Tdf/TdfParser.cs:19-30 | a file read is loaded: balanced, every property inside a block, one block per header line |
| Tdf.StatementsComplete | TAUtil/Tdf/TdfParser.cs:85-96 | when headers start with "[" and "}" is not a property, lines that read as balanced events followed by the block's end are read in full as those events, whatever follows them |
| Tdf.PropertyComplete | TAUtil/Tdf/TdfParser.cs:92-95 | the same, when the body starts with a property |
| Tdf.NestedComplete | TAUtil/Tdf/TdfParser.cs:88-91 | the same, when the body starts with a nested block |
| Tdf.BlockComplete | TAUtil/Tdf/TdfParser.cs:44-49 | lines that read as a begin, a balanced body and an end are read in full as that block, whatever follows them |
| Tdf.FileComplete | TAUtil/Tdf/TdfParser.cs:19-30 | lines that read as balanced events with every property inside a block are read in full as those events |
| Tdf.LoadAccepts | TAUtil/Tdf/TdfParser.cs:19-30 | reading a file succeeds exactly when its lines can be loaded as balanced blocks, one per header line, and what it reads is then loaded so |
| Tdf.ReadersSane | TAUtil/Tdf/TdfParser.cs:99-129 | ParseBlockName names only lines starting with "[", and "}" is not a property |
| Tdf.FirstReturn | TAUtil/Tdf/TdfParser.cs:44-49 | a balanced run that starts with a begin splits at the end matching it into a balanced body and a balanced rest |
| Tdf.ReadsWithSplit | TAUtil/Tdf/TdfParser.cs:77-96 | lines that read as two runs of events one after the other split into the lines of the first and those of the second |
| Tdf.TdfParser.constructor | TAUtil/Tdf/TdfParser.cs:13-17 | nothing read, count 0, no events; the line readers are ExtractContent, ParseBlockName and ParseProperty |
| Tdf.TdfParser.ReadNextLine | TAUtil/Tdf/TdfParser.cs:70-75 | the next line or nothing at the end; the count goes up either way |
| Tdf.TdfParser.ReadNextInterestingLine | TAUtil/Tdf/TdfParser.cs:51-68 | the interesting lines consumed are exactly the one returned (the content of the last raw line read, never empty) or none at the end of input; the count grows by the lines read, plus one for the end |
| Tdf.TdfParser.ReadBlockLine | TAUtil/Tdf/TdfParser.cs:110-129 | a property is passed to the adapter exactly when the chomped line has '='; otherwise an error at the current line naming the chomped line |
| Tdf.TdfParser.ReadBlock | TAUtil/Tdf/TdfParser.cs:44-49 | does exactly what BlockOf says of the header line and the interesting lines ahead: a bad header is the error "Expected [<name>]" naming it, with no events and no line read; a body's error is passed on; otherwise success, and the events added are the reading's, one block named by the header, from exactly the lines it used. The reader stops right after the last interesting line the reading used, having counted each raw line it handed out, or, when the reading ran into the end of input, at the end with one count more for the call that found nothing; so the line number of every ParseError is tied to the input. On failure the events passed to the adapter are the ones the reading records before the error. |
| Tdf.TdfParser.ReadBlockBody | TAUtil/Tdf/TdfParser.cs:77-97 | does exactly what BodyOf says of the interesting lines ahead: a first line other than "{" is the error "Expected {" naming that line, or the empty text at the end of input; a statement's error or the end of input inside the body is passed on; otherwise success with the reading's events, balanced, from exactly the lines it used, "{" first. The reader stops right after the last interesting line the reading used, having counted each raw line it handed out, or, when the reading ran into the end of input, at the end with one count more for the call that found nothing; so the line number of every ParseError is tied to the input. On failure the events passed to the adapter are the ones the reading records before the error. |
| Tdf.TdfParser.ReadStatements | TAUtil/Tdf/TdfParser.cs:85-96 | does exactly what StatementsOf says of the interesting lines ahead: the end of input before the closing "}" is a null reference, a statement's error is passed on, and otherwise it succeeds with the reading's events, having read up to and including that "}" (balanced, by StatementsSound). The reader stops right after the last interesting line the reading used, having counted each raw line it handed out, or, when the reading ran into the end of input, at the end with one count more for the call that found nothing; so the line number of every ParseError is tied to the input. On failure the events passed to the adapter are the ones the reading records before the error. |
| Tdf.TdfParser.ReadStatement | TAUtil/Tdf/TdfParser.cs:88-95 | does exactly what StatementOf says of the line and the interesting lines after it: a line starting with "[" is a nested block, anything else one property read without consuming a line; the events added are balanced and are what the line and the lines consumed read as. The reader stops right after the last interesting line the reading used, having counted each raw line it handed out, or, when the reading ran into the end of input, at the end with one count more for the call that found nothing; so the line number of every ParseError is tied to the input. On failure the events passed to the adapter are the ones the reading records before the error. |
| Tdf.TdfParser.ReadBodyLine | TAUtil/Tdf/TdfParser.cs:85-96 | the next interesting line is the closing "}" exactly when it says so, and then nothing is added and the reader stops right after it; otherwise the end of input is a null reference, and a statement is read exactly as StatementOf says. The reader stops right after the last interesting line the reading used, having counted each raw line it handed out, or, when the reading ran into the end of input, at the end with one count more for the call that found nothing; so the line number of every ParseError is tied to the input. On failure the events passed to the adapter are the ones the reading records before the error. |
| Tdf.TdfParser.ReadTopLevel | TAUtil/Tdf/TdfParser.cs:24-27 | done exactly at the end of input, with nothing added and one count for the call that found nothing; otherwise a block is read from the next interesting line exactly as BlockOf says, and the lines consumed read as that block. The reader stops right after the last interesting line the reading used, having counted each raw line it handed out, or, when the reading ran into the end of input, at the end with one count more for the call that found nothing; so the line number of every ParseError is tied to the input. On failure the events passed to the adapter are the ones the reading records before the error. |
| Tdf.TdfParser.Load | TAUtil/Tdf/TdfParser.cs:19-30 | returns an empty node and does exactly what FileOf says of the interesting lines: on success all input is read, and the events are balanced with every property inside a block, one block per header line; it succeeds on every input whose interesting lines can be loaded so; every error carries the count of lines handed out up to the faulty line, or to the end of input with one more for the call that found nothing |
| Features.FromTdfNode | Mappy/Data/FeatureRecord.cs:27-53 | the name is the node's; every present text key (world, category, filename, seqname, object) is copied verbatim; a present footprintx or footprintz that converts gives that number |
| Features.MissingKeysDefault | Mappy/Data/FeatureRecord.cs:27-53 | the name is the node's; missing footprint keys read as "0" and missing text keys as "" |
| Features.UnreadableFootprintIsOne | Mappy/Data/FeatureRecord.cs:32-40 | a footprint the converter rejects becomes 1 |
| Features.FootprintYReadsOnlyZ | Mappy/Data/FeatureRecord.cs:37-48 | FootprintY depends on the "footprintz" key alone |
| Features.FromTdfNodeInvertsToTdfNode | Mappy/Data/FeatureRecord.cs:27-53 | reading back the block that describes a record (with int.TryParse) gives the record |
| Operations.MapAttributes.GetStartPosition | Mappy/Operations/ChangeStartPositionOperation.cs:30 | (assumed contract) the slot's position or nothing |
| Operations.MapAttributes.SetStartPosition | Mappy/Operations/ChangeStartPositionOperation.cs:31 | (assumed contract) only that slot changes |
| Operations.ChangeStartPositionOperation.constructor | Mappy/Operations/ChangeStartPositionOperation.cs:15-20 | map, index and new position as given; no old position yet |
| Operations.ChangeStartPositionOperation.Execute | Mappy/Operations/ChangeStartPositionOperation.cs:28-32 | remembers what the slot held (possibly nothing) and puts the new position in that slot only |
| Operations.ChangeStartPositionOperation.Undo | Mappy/Operations/ChangeStartPositionOperation.cs:34-37 | puts the remembered value back into that slot only |
| Operations.ChangeStartPositionOperation.Combine | Mappy/Operations/ChangeStartPositionOperation.cs:39-49 | another slot is refused; otherwise a new operation from this one's old position to the other's new one, changing nothing |
| Operations.UndoExecuted | Mappy/Operations/ChangeStartPositionOperation.cs:28-37 | Execute then Undo restores every start position, including an empty slot |
| Operations.UndoCombined | Mappy/Operations/ChangeStartPositionOperation.cs:28-48 | two executed changes of one slot undone as their combination restore every start position |
| Minimap.MinimapRect | Mappy/Models/MinimapFormViewModel.cs:23-33 | the location is the scaled viewport position and the size the scaled viewport size; x and width by the horizontal rule, y and height by the vertical |
| Minimap.ScaleWidth | Mappy/Models/MinimapFormViewModel.cs:61-69 | the value times the image width, divided by the usable width (32·cells - 32) rounding toward zero, for a divisor of either sign: r·u is within the magnitude of u of the product, on the side of zero |
| Minimap.ScaleHeight | Mappy/Models/MinimapFormViewModel.cs:71-79 | the same for the height, whose usable extent is 32·cells - 128 and is negative for maps one to three cells high |
| Minimap.NoImageScalesToZero | Mappy/Models/MinimapFormViewModel.cs:61-79 | with no minimap image everything scales to 0 |
| Minimap.FullExtentScalesToImage | Mappy/Models/MinimapFormViewModel.cs:61-79 | the whole usable extent scales to the whole image |
| Minimap.ScaleWidthMonotone | Mappy/Models/MinimapFormViewModel.cs:61-69 | for a map at least two cells wide, horizontal scaling preserves order |
| Minimap.ViewportInsideMinimap | Mappy/Models/MinimapFormViewModel.cs:23-33 | a viewport inside the usable map is drawn inside the minimap image |
| Strings.IndexOf | TAUtil/Tdf/TdfParser.cs:34 | the first occurrence, or none exactly when there is none |
| Strings.TrimIsSlice | TAUtil/Tdf/TdfParser.cs:40 | trimming keeps a slice and removes only white space from both ends |
| Strings.TrimIdempotent | TAUtil/Tdf/TdfParser.cs:40 | trimming twice is trimming once |
| Strings.TryParseInt32 | Mappy/Presentation/MapCommandHandler.cs:35 | a parsed value always fits in 32 bits |
| Strings.ParseRendered | Mappy/Presentation/MapCommandHandler.cs:35 | int.TryParse reads back the decimal text of any int |
| Strings.ParseIgnoresTrailingNuls | Mappy/Presentation/MapCommandHandler.cs:35 | int.TryParse reads a text followed by NUL characters exactly as the text alone |
| Strings.ParsedCharacters | Mappy/Presentation/MapCommandHandler.cs:35 | text int.TryParse accepts holds only digits, signs, white space and NUL characters |

## Left out

- Rendering, layers, drawables, Rx observables and property-change notifications are not modelled. This covers UpdateBandbox, RefreshSelection, the feature and tile mappings, and `SetField`/`FireChange`. Only the notification that recomputes `HasSelection` is kept.
- `Dispatcher` and `NewMapForm` are not part of this model. They are dialogs, threads, the clipboard and files. The dispatcher appears only as the log of requests made of it.
- Selection.SelectionModel.CommitBandbox: what committing a bandbox does to the selection is not modelled. The bandbox behaviour is not part of this model, so only the forwarded call is stated and framed.
- The bandbox behaviour classes, `Util.ScreenToHeightIndex`, `Util.ToGridCoordinates` and `TdfConvert.TryToInt32` are not part of this model. Their results are parameters (`featurePos`, `toGridCoordinates`, `tryToInt32`).
- Grids.Grid.Merge: the grid class is not part of this model, so its contract (a rectangle copy that keeps dimensions) is an assumption. The same holds for `GetStartPosition` and `SetStartPosition` of the map attributes.
- `SelectionModel.GetStartPosition` is left out: it only throws `NotImplementedException`.
- `MapViewViewModel.DragDrop`, `MouseDownRight` and `SelectFromTag` are not modelled. Selecting through a tag is the single request `SelectItem(tag)`.
- The start-position marker drawing in `UpdateStartPosition` is modelled only for its arithmetic (`HeightCell`, `SampledHeight`, `MarkerLocation`). The item bookkeeping around it is not modelled.
- MapView.MapViewViewModel.PlaceAlongLine: the float interpolation `Lerp2` and the float-to-int casts are the parameter `locate`. The contract states which points are requested, not where the interpolation puts them.
- MapView.MapViewViewModel.SporadicFillFeatureInBandbox: `Random.NextDouble` is the parameter `draw`, one number per slot. Products are compared over the reals rather than in floating point. The feature's image size is required to be positive, where the source would divide by zero. The same requirement holds for `CalculatePointsNeeded` (`Mappy/Models/MapViewViewModel.cs:866`), `PlaceAlongLine`, `FillAndSelect`, `LineAndSelect` and `MouseUp`, which reach one of the two divisions.
- 32-bit overflow is not modelled. Integers are unbounded, so drag accumulators, slot positions and the minimap product `v * imageWidth` never wrap. Truncating division is modelled.
- Queries that change nothing are not logged: `IsInSelection`, `HitTest` and the dispatcher's `Fetch*` calls. Their answers are parameters.
- Some source loops or branches are split into helper methods with their own contracts, so that each proof stays small: ReadStatements, ReadStatement, TranslateFeatures, FillColumn, FillSlot, FillAndSelect, LineAndSelect and Send, ReadBodyLine and ReadTopLevel. They do what the lines they cite do, in the same order.
- The TDF parser reads lines through three constant fields fixed by its constructor to `ExtractContent`, `ParseBlockName` and `ParseProperty`. The methods' contracts name the fields, so that their proofs do not unfold the string functions.
- Tdf.TdfParser.Load: the root node is returned unpopulated, as in the source. Building nodes from the events is the adapter's job, and the adapter is not part of this model.
- The notification plumbing of `ChangeStartPositionOperation`'s map model is not modelled. The map is represented only by its start-position slots.
- Minimap.ScaleWidth: requires a non-zero usable width. A map one cell wide makes the source divide by zero, which the model does not reach.
- Minimap.ScaleHeight: requires a non-zero usable height. A map four cells high makes the source divide by zero, which the model does not reach.
- Strings.TryParseInt32: the sign characters are fixed to ASCII `-` and `+`. `int.TryParse` takes them from the current culture, which is not modelled.
- Presentation.MapCommandHandler.DragDrop: a drop whose data has neither a start-position payload nor text makes the source throw `NullReferenceException` (`Mappy/Presentation/MapCommandHandler.cs:33`). The model always has text for a non-start-position drop.
