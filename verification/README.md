# AdaCAD draft model

AdaCAD is a weaving design editor. Its data model is made of three parts:

- A **cell** is one crossing of a woven structure. It holds a 4-bit pole mask (the edges the yarn passes through), a heddle flag with its "set" flag, and a mask id.
- A **pattern** is a named, favouritable stamp grid.
- A **draft** is the design itself:
  - the drawdown `pattern[wefts][warps]`, a boolean grid;
  - the shuttles, each a weft yarn carrier with a colour and a visibility flag;
  - the row-to-shuttle mapping and the list of visible rows;
  - connections and labels.

The editor edits a draft in several ways:

- writes single heddles;
- stamps a selection with a pattern (copy, invert, mask, mirror);
- inserts, clones and deletes rows;
- shifts connection endpoints;
- adds shuttles, some of which bring an image of rows with them.

The weaver component also holds `patternToSize`. This helper cuts a boolean grid down to a requested size and then repeats it to fill that size.

This project models all of that in Dafny as pure functions over immutable datatypes. A JavaScript mutation becomes a function from the old value to the new one.

- A read of a property of `undefined` becomes `Fail(TypeError)`.
- The one loop that can run forever becomes `Fail(Diverges)`.
- JavaScript `splice` index normalisation is modelled exactly.
- The pole mask is a `bv4`, so the source's bit operations are modelled as bit operations.

Modules:

| module | file | models |
|---|---|---|
| `Outcomes` | outcomes.dfy | `Option`, `Result`, the two faults |
| `Grids` | grids.dfy | boolean grids, `splice` insert/remove |
| `Cells` | cells.dfy | `src/app/core/model/cell.ts` |
| `Patterns` | patterns.dfy | `src/app/core/model/pattern.ts` |
| `Drafts` | drafts.dfy | the draft state, construction, queries, `updateVisible` |
| `ImageSplice` | image_splice.dfy | the splice loop of `insertImage` as a closed form |
| `DraftEdits` | draft_edits.dfy | row edits, connections, shuttles, images |
| `DraftSelection` | draft_selection.dfy | `updateSelection` |
| `Resize` | resize.dfy | `patternToSize` in `src/app/weaver/weaver.component.ts` |

The draft has a well-formedness invariant, `Drafts.WellFormed`:

- `wefts` rows of `warps` cells;
- one mapping entry per row, each naming an existing shuttle;
- each shuttle's id equal to its position;
- `visibleRows` equal to the rows whose shuttle is visible, in ascending order.

It is proved to be kept by `insertRow`, `deleteRow`, the corrected `cloneRow`, `addShuttle` without an image, `updateSelection` and the reload of a captured draft. `addShuttle` with an image is proved to break it. No preservation result is stated for `insertImage` on its own, for `cloneRow` as written, or for `updateConnections`.

## Model

| member | source | states |
|---|---|---|
| Cells.NewCell | src/app/core/model/cell.ts:15-20 | a new cell has no pole, heddle down and unset, mask id -1 |
| Cells.SetHeddleUp | src/app/core/model/cell.ts:23-26 | heddle up and marked set; poles and mask id untouched |
| Cells.SetHeddleDown | src/app/core/model/cell.ts:28-31 | heddle down and marked set; poles and mask id untouched |
| Cells.SetPole | src/app/core/model/cell.ts:34-59 | after OR-ing in an edge's bit the cell has that pole and every other pole and field is unchanged |
| Cells.SetNorthSouth | src/app/core/model/cell.ts:43-46 | north and south present, east and west as before |
| Cells.SetEastWest | src/app/core/model/cell.ts:48-51 | east and west present, north and south as before |
| Cells.UnsetPole | src/app/core/model/cell.ts:61-76 | the XOR toggles the pole: present becomes absent and absent becomes present, other poles kept |
| Cells.HasNorth | src/app/core/model/cell.ts:79-82 | `poles >>> 3 === 1` holds exactly when the north bit is set |
| Cells.IsPair | src/app/core/model/cell.ts:84-106 | the two-edge mask test holds exactly when both poles are present |
| Cells.IsPole | src/app/core/model/cell.ts:108-114 | the one-edge mask test holds exactly when that pole is present |
| Cells.HasEast | src/app/core/model/cell.ts:116-119 | the shift-and-parity test holds exactly when the east bit is set |
| Cells.HasSouth | src/app/core/model/cell.ts:121-124 | the shift-and-parity test holds exactly when the south bit is set |
| Cells.HasWest | src/app/core/model/cell.ts:126-128 | the parity test holds exactly when the west bit is set |
| Cells.SetHeddle | src/app/core/model/cell.ts:142-144 | writes the heddle value but leaves the "set" flag as it was |
| Cells.SetPoles | src/app/core/model/cell.ts:146-148 | each pole present exactly when its bit is in the new mask |
| Cells.SetMaskId | src/app/core/model/cell.ts:150-152 | mask id replaced, all else kept |
| Cells.UnsetMaskId | src/app/core/model/cell.ts:154-156 | mask id back to -1, all else kept |
| Cells.UnsetHeddle | src/app/core/model/cell.ts:158-161 | heddle down and unset; poles and mask id untouched |
| Cells.UnsetPoles | src/app/core/model/cell.ts:163-165 | no pole present, other fields kept |
| Cells.UnsetHeddleForgets | src/app/core/model/cell.ts:158-161 | unsetting the heddle erases any earlier heddle write |
| Cells.SetPoleIdempotent | src/app/core/model/cell.ts:34-59 | setting a pole twice equals setting it once |
| Cells.UnsetAfterSetClears | src/app/core/model/cell.ts:34-76 | set then unset leaves the pole absent and nothing else changed |
| Cells.UnsetPoleTwiceRestores | src/app/core/model/cell.ts:61-76 | the XOR unset is an involution |
| Cells.UnsetPoleClearsPresentPole | src/app/core/model/cell.ts:61-76 | on a present pole, unset clears it and set restores the original cell |
| Cells.UnsetMaskIdForgets | src/app/core/model/cell.ts:150-156 | unsetting the mask id undoes any set; a new cell is already unset |
| Patterns.NewPattern | src/app/core/model/pattern.ts:16-39 | fails exactly when the options object is missing or its grid is empty; defaults favourite false, id -1, name "unnamed"; height and width from the grid's row 0, every cell a default cell |
| Patterns.SetPattern | src/app/core/model/pattern.ts:42-54 | grid replaced; height and width read from the new grid, width 0 when it has no rows; name, id and favourite kept |
| Patterns.SetPatternWellShaped | src/app/core/model/pattern.ts:42-54 | for a rectangular grid the recomputed dimensions describe the grid |
| Patterns.SetPatternOwnGrid | src/app/core/model/pattern.ts:42-54 | setting a pattern's own grid changes nothing |
| Patterns.ToggleFavorite | src/app/core/model/pattern.ts:57-59 | flips only the favourite flag |
| Patterns.ToggleFavoriteTwice | src/app/core/model/pattern.ts:57-59 | toggling twice restores the pattern |
| Drafts.VisibleRowsOf | src/app/core/model/draft.ts:142-159 | the visible rows are strictly ascending, and a row is among them exactly when its shuttle exists and is visible |
| Drafts.AllShownAllVisible | src/app/core/model/draft.ts:142-159 | when every row's shuttle is visible the visible rows are 0, 1, ..., n-1 |
| Drafts.UpdateVisible | src/app/core/model/draft.ts:142-159 | recomputes the visible rows (ascending, exactly the shown rows) and changes nothing else |
| Drafts.UpdateVisibleIdempotent | src/app/core/model/draft.ts:142-159 | recomputing visibility twice equals doing it once |
| Drafts.VisibleRowsInRange | src/app/core/model/draft.ts:142-159 | in a well-formed draft the visible rows are distinct indices of the drawdown |
| Drafts.NewDraft | src/app/core/model/draft.ts:76-105 | one default shuttle, every row mapped to shuttle 0 and visible, all-false drawdown unless one is given; well formed whenever the given drawdown is `wefts` x `warps` |
| Drafts.ReloadAsWritten | src/app/core/model/draft.ts:46-75 | the update constructor as written fails exactly when the snapshot holds a sub-pattern |
| Drafts.ReloadAsWrittenRejectsPatterns | src/app/core/model/draft.ts:58-64 | a snapshot with one sub-pattern raises a TypeError |
| Drafts.BlankPattern | src/app/core/model/pattern.ts:16-39 | a pattern built from an empty options object is 0 x 0, not a favourite, id -1, "unnamed" |
| Drafts.Reload | src/app/core/model/draft.ts:46-105 | every field copied from the snapshot, each sub-pattern rebuilt with its grid and dimensions (width 0 for an empty grid), and an all-false drawdown when none was captured |
| Drafts.ReloadCaptureRoundTrip | src/app/core/model/draft.ts:46-75 | capturing a draft whose sub-patterns are stored as a blank pattern given their grid, and reloading it, returns the same draft; well-formedness survives |
| Drafts.IsUp | src/app/core/model/draft.ts:124-131 | in any draft, an in-range visible row and column (columns bounded by row 0 and by the row itself) read back exactly that drawdown cell, and anything out of range reads false |
| Drafts.IsUpReadsVisibleRow | src/app/core/model/draft.ts:124-131 | in a well-formed draft `isUp` is the drawdown cell under the visible row, and false outside the grid |
| Drafts.RowToShuttle | src/app/core/model/draft.ts:138-140 | the mapping entry of an in-range row, none otherwise |
| Drafts.SetHeddle | src/app/core/model/draft.ts:133-136 | fails exactly when the visible index or its row is missing; otherwise only the one drawdown cell changes |
| Drafts.SetHeddleThenIsUp | src/app/core/model/draft.ts:124-136 | a heddle write is read back by `isUp` and keeps the draft well formed |
| Drafts.GetColor | src/app/core/model/draft.ts:291-297 | succeeds exactly when all three lookups hit, with the colour of the row's shuttle |
| Drafts.GetColorOfVisibleShuttle | src/app/core/model/draft.ts:291-297 | in a well-formed draft a colour exists exactly for the visible indices, and it is the colour of a visible shuttle |
| ImageSplice.Steps | src/app/core/model/draft.ts:284-288 | the splice loop adds one entry per iteration |
| ImageSplice.StepsMultiset | src/app/core/model/draft.ts:284-288 | the loop adds exactly the image's entries, no more and no fewer |
| ImageSplice.PartialStepAfter | src/app/core/model/draft.ts:285-287 | an iteration past the existing entries inserts at their end |
| ImageSplice.PartialStepAmong | src/app/core/model/draft.ts:285-287 | an iteration among the existing entries puts image entry i-1 right after existing entry i-1 |
| ImageSplice.StepsFromPartial | src/app/core/model/draft.ts:284-288 | the remaining iterations complete the interleaved arrangement |
| ImageSplice.StepsWeave | src/app/core/model/draft.ts:281-289 | run on an array of `max` entries, the loop interleaves the two and appends the leftovers |
| ImageSplice.WeaveIndex | src/app/core/model/draft.ts:281-289 | the woven result has existing entry t at 2t and image entry t at 2t+1, and the leftover tails after them |
| DraftEdits.InsertRow | src/app/core/model/draft.ts:215-228 | one more weft, an all-false row and the shuttle id spliced in at i, visibility recomputed, nothing else changed |
| DraftEdits.InsertRowSpec | src/app/core/model/draft.ts:215-228 | in a well-formed draft the new row sits at i, the rows after it shift by one, and the draft stays well formed |
| DraftEdits.DeleteRow | src/app/core/model/draft.ts:244-251 | one weft fewer, the row and mapping entry at i spliced out, visibility recomputed |
| DraftEdits.DeleteRowSpec | src/app/core/model/draft.ts:244-251 | deleting an existing row keeps a well-formed draft well formed and closes the gap |
| DraftEdits.DeleteUndoesInsert | src/app/core/model/draft.ts:215-251 | deleting the row just inserted gives back the draft, with visibility recomputed |
| DraftEdits.CloneRowAsWritten | src/app/core/model/draft.ts:230-242 | inserts a copy of physical row c, whatever row is shown at visible index c; bumps wefts, recomputes the visible rows and changes nothing else |
| DraftEdits.CloneRowAsWrittenCopiesWrongRow | src/app/core/model/draft.ts:230-242 | on a well-formed draft whose row 0 is hidden, the copy differs from the row shown at index 0 |
| DraftEdits.CloneRow | src/app/core/model/draft.ts:230-242 | inserts a copy of the row shown at visible index c |
| DraftEdits.CloneRowCopiesVisibleRow | src/app/core/model/draft.ts:230-242 | the clone keeps the draft well formed and its new row reads, cell for cell, what `isUp` showed at index c |
| DraftEdits.UpdateConnections | src/app/core/model/draft.ts:253-265 | every endpoint whose row is greater than `index` moves by `offset`, the others stay, nothing else changes |
| DraftEdits.ShiftBackRestores | src/app/core/model/draft.ts:253-265 | a forward shift is undone by the backward shift of the rows it moved |
| DraftEdits.ConnectionsFollowInsertedRow | src/app/core/model/draft.ts:215-265 | after an insert at i and a shift past i-1, every endpoint still names the same drawdown row |
| DraftEdits.ConnectionsFollowDeletedRow | src/app/core/model/draft.ts:244-265 | after a delete at i and a shift back past i, every endpoint on another row still names the same drawdown row |
| DraftEdits.InsertImageRows | src/app/core/model/draft.ts:281-289 | the rows and mapping gain exactly the image's rows and that many copies of the id; the mapping is interleaved as `Weave` places it, and so is the drawdown when drawdown and mapping have the same length; nothing else changes |
| DraftEdits.InsertImage | src/app/core/model/draft.ts:281-289 | a shuttle without an image raises; otherwise the image is spliced in while wefts and visible rows are left stale |
| DraftEdits.InsertImagePlacement | src/app/core/model/draft.ts:281-289 | when drawdown and mapping have the same length, image row t lands right after existing row t, and the leftovers follow |
| DraftEdits.ShortDrawdownReversesImage | src/app/core/model/draft.ts:281-289 | with a two-entry mapping over an empty drawdown, a two-row image is spliced in reverse order, not as `Weave` places it |
| DraftEdits.InsertImageIntoEmpty | src/app/core/model/draft.ts:281-289 | into a draft with no rows the image arrives in order, all rows on the shuttle |
| DraftEdits.AddShuttle | src/app/core/model/draft.ts:267-279 | the shuttle is appended with id equal to its position, visible, thickness defaulting to epi; its image, if any, goes through the `insertImage` splice, which interleaves it with the existing rows when drawdown and mapping have the same length; epi, wefts, warps and visible rows are kept |
| DraftEdits.AddShuttleKeepsIds | src/app/core/model/draft.ts:267-273 | ids stay equal to positions |
| DraftEdits.VisibleRowsAgree | src/app/core/model/draft.ts:142-159 | visibility depends only on whether each row's shuttle is shown |
| DraftEdits.AddPlainShuttleKeepsWellFormed | src/app/core/model/draft.ts:267-279 | adding a shuttle without an image keeps a well-formed draft well formed |
| DraftEdits.AddImageShuttleOutgrowsWefts | src/app/core/model/draft.ts:267-289 | adding a shuttle with a non-empty image leaves `wefts` short of the drawdown, so the draft is no longer well formed |
| DraftEdits.InsertRowExample | src/app/core/model/draft.ts:215-228 | `insertRow(1, 0)` on a new two-row draft gives three wefts, with an all-false row of `warps` cells on shuttle 0 at index 1 |
| DraftEdits.UpdateConnectionsExample | src/app/core/model/draft.ts:253-265 | `updateConnections(1, 1)` moves an endpoint on row 2 to row 3 and keeps one on row 0 |
| DraftSelection.UpdateSelection | src/app/core/model/draft.ts:173-213 | fails exactly when the stamp is empty or a visited row is missing; otherwise only the drawdown changes and only in visited cells; over distinct visible rows each visited cell holds the transformed, tiled stamp |
| DraftSelection.PaintCells | src/app/core/model/draft.ts:187-211 | the inner loop never changes the drawdown's shape |
| DraftSelection.PaintRows | src/app/core/model/draft.ts:186-212 | the outer loop never changes the drawdown's shape |
| DraftSelection.PaintKept | src/app/core/model/draft.ts:186-212 | rows the loop never visits, and columns outside the selection, are unchanged |
| DraftSelection.PaintStamped | src/app/core/model/draft.ts:186-212 | over distinct rows every visited cell ends as copy, invert, mask or mirror of the tiled stamp |
| DraftSelection.FirstMissing | src/app/core/model/draft.ts:186-190 | the first iteration whose visible row names no drawdown row: every earlier one names a row, and it does not |
| DraftSelection.SelectionLeaves | src/app/core/model/draft.ts:173-213 | the draft left behind whether or not the call raises: untouched for an empty stamp, the successful result when there is one, and otherwise the rows before the faulting one painted and nothing else |
| DraftSelection.FaultLeavesEarlierRowsPainted | src/app/core/model/draft.ts:185-212 | when a visited row is missing the call has already stamped every row visited before it, and all other rows are unchanged |
| DraftSelection.SelectionKeepsWellFormed | src/app/core/model/draft.ts:173-213 | stamping keeps a well-formed draft well formed |
| DraftSelection.EmptySelectionChangesNothing | src/app/core/model/draft.ts:183-187 | a selection less than one cell tall or wide changes nothing |
| DraftSelection.MaskOnlyClears | src/app/core/model/draft.ts:196-198 | a mask never sets a cell that was clear |
| DraftSelection.PaintTwice | src/app/core/model/draft.ts:186-212 | over distinct rows a second pass of the loops changes nothing |
| DraftSelection.SelectionIdempotent | src/app/core/model/draft.ts:173-213 | over distinct visible rows applying the same selection again changes nothing, for every transform |
| DraftSelection.CheckerExample | src/app/core/model/draft.ts:173-213 | a 2 x 2 checker stamped at the top-left of a blank 4 x 4 drawdown lands there and nowhere else |
| Resize.TruncateLoop | src/app/weaver/weaver.component.ts:546-548 | popping the last entry while too long leaves exactly the first `n` entries (fewer if there were fewer); the same loop cuts the grid to `weftSize` rows at lines 552-554 |
| Resize.TruncateColumns | src/app/weaver/weaver.component.ts:544-550 | only when row 0 is wider than `warpSize` is every row cut to its prefix |
| Resize.PadColumnsLoop | src/app/weaver/weaver.component.ts:556-567 | the loop diverges exactly when row 0 is empty and `warpSize` is positive; otherwise row 0 reaches `warpSize` |
| Resize.PadRowsLoop | src/app/weaver/weaver.component.ts:568-575 | the grid reaches `weftSize` rows and keeps its existing rows in front |
| Resize.PatternToSize | src/app/weaver/weaver.component.ts:543-577 | raises exactly for an empty pattern or `weftSize` 0, diverges exactly when row 0 is empty and `warpSize` positive, otherwise returns `weftSize` rows |
| Resize.PadColumnsFromPasses | src/app/weaver/weaver.component.ts:556-567 | after k passes the cursor is k and each non-empty row is its original repeated; the cursor is never reset |
| Resize.PadColumnsCloses | src/app/weaver/weaver.component.ts:556-567 | from cursor 0 each non-empty row is padded by repeating it, by the columns row 0 lacks |
| Resize.PadRowsFromPushes | src/app/weaver/weaver.component.ts:568-575 | after k pushes the grid is its rows repeated from the top |
| Resize.PadRowsCloses | src/app/weaver/weaver.component.ts:568-575 | from cursor 0 the rows are repeated from the top up to `weftSize` |
| Resize.PatternToSizeTiles | src/app/weaver/weaver.component.ts:543-577 | for a rectangular pattern of positive width, cell (i, c) of the result is cell (i mod height, c mod width) of the pattern, at `weftSize` by `warpSize` |
| Resize.PatternToSizeKeepsFitting | src/app/weaver/weaver.component.ts:543-577 | a pattern already of the requested size comes back unchanged |
| Resize.RaggedRowsKeepTheirWidth | src/app/weaver/weaver.component.ts:544-567 | the cut looks at row 0 only: a wider second row survives and is padded past `warpSize` |

## Left out

- Console output, Angular wiring, and the `Shuttle` class beyond the fields the draft reads. The shuttle is a plain record here.
- `loadAdaFile` (draft.ts:110-122): it only copies fields from a file, like `Drafts.Reload` without rebuilding the sub-patterns.
- `addLabel`, `createConnection`, `deleteConnection` (draft.ts:161-171): their bodies are empty, so they change nothing.
- Aliasing: the source mutates arrays in place and shares them.
  - `patternToSize` pushes the same row object twice.
  - `reload` keeps the caller's arrays.
  - `cloneRow` copies a row with `_.clone`.
  - The model works on values, so a later mutation through a shared reference is not represented.
- Drafts.NewDraft: constructor types other than "new" and "update" leave every field undefined except `pattern`, which becomes `[]` (its fill loop runs zero times because `wefts` is undefined). They are not modelled.
- Drafts.SetHeddle: a column past the row's end grows the JavaScript array; the model requires the column to be in range.
- Cells.SetPoles: values outside 0..15 do not fit the 4-bit mask. The model takes a `bv4`.
- Shuttle thickness and `epi` are opaque `real` values; 0.0 stands for "not set".
- DraftSelection.UpdateSelection: the following cases are required away, not modelled:
  - a pixel width or height that is not a multiple of 20, which gives fractional loop bounds;
  - a stamp with zero columns and a positive width, where `j % 0` is NaN and the cell reads `undefined`;
  - columns left of 0 or past the row's end, where JavaScript reads `undefined` or grows the row;
  - a stamp with a row shorter than row 0, which reads `undefined` past its end: the original and mirror transforms then store `undefined`, invert stores `true`, and mask stores `undefined`. The drawdown is modelled as booleans only, so every stamp row must be at least as wide as row 0 (`CoversFirstRow`); rows longer than row 0 are accepted, since `j % cols` never reads past row 0's width. The same requirement is carried by `PaintCells`, `PaintRows`, `PaintKept`, `PaintStamped`, `SelectionLeaves`, `MaskOnlyClears` and `SelectionIdempotent`.
- DraftSelection.PaintStamped: holds only when the visible rows are distinct, as they are in a well-formed draft. When a visible row repeats, the later visit overwrites the earlier one and the cell holds the last write.
- DraftSelection.SelectionIdempotent: is stated only for distinct visible rows, for the same reason.
- Resize.PatternToSize: the helper mutates its argument and returns that same array. The model returns a new value.
- Drafts.IsUp: fractional indices are not modelled; indices are integers.
- DraftEdits.CloneRowAsWritten: requires `c` to name a physical row. Past the end the source would insert `undefined` as a row.
- Resize.PatternToSize: negative or fractional sizes are not modelled. Both sizes are `nat`.
- `insertImage` does not append the image rows. When drawdown and mapping have the same length, image row t lands right after existing row t, and the rest of the image goes before the rest of the drawdown (`ImageSplice.Weave`).
- DraftEdits.InsertImageRows: the splice positions are counted against the mapping's length. When the drawdown has a different length, only the drawdown's new length and its multiset of rows are stated, not where each image row lands. `DraftEdits.ShortDrawdownReversesImage` shows one such case. Such drafts arise from the constructors, which keep any drawdown they are given.

## Findings

| source | as written | input that shows it | evidently intended | confidence | as-written member | corrected member |
|---|---|---|---|---|---|---|
| src/app/core/model/draft.ts:230-242 | `cloneRow(i, c, s)` computes `row = visibleRows[c]` and then copies `pattern[c]`, ignoring `row` | a well-formed two-row draft whose row 0 uses a hidden shuttle: visible index 0 shows physical row 1, but physical row 0 is copied | copy `pattern[visibleRows[c]]`, the row the user sees at index c | medium, not executed; the unused `row` is the main evidence of intent, and `deleteRow` (draft.ts:244-245) has the same unused `row` while its caller passes a physical index, so the intent is not certain | DraftEdits.CloneRowAsWritten, DraftEdits.CloneRowAsWrittenCopiesWrongRow | DraftEdits.CloneRow, DraftEdits.CloneRowCopiesVisibleRow |
| src/app/core/model/draft.ts:58-64 | the "update" constructor rebuilds each sub-pattern with `new Pattern()`; the pattern constructor reads `obj.favorite` with `obj` undefined | any snapshot with at least one sub-pattern, e.g. `patterns = [[[true]]]` | build a blank pattern (`new Pattern({})`) and then `setPattern` it | high, not executed | Drafts.ReloadAsWritten, Drafts.ReloadAsWrittenRejectsPatterns | Drafts.Reload, Drafts.ReloadCaptureRoundTrip |
