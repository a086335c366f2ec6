# A verified model of a stepwise Dijkstra grid solver

This project models the grid-search engine of a small C++ program (`src/dijkstra.h`), together with its move model and terrain table (`src/input.h`), in Dafny, and proves properties of that model.

The program reads a maze as one text with rows separated by `'\n'`. It finds the start symbol and searches outward. Each call of `Solver::step` expands one cost tier of a Dijkstra search. The step ends at the first tier that reaches a goal cell; the cheapest goal node of that tier is recorded, and `print` draws either the open frontier or the found path into a copy of the text.

Modules, in dependency order:

- `Wrappers`: `Option` (a nullable pointer) and `Result` (an operation that may throw).
- `Grid` (`grid.dfy`): the flat-text addressing of `getAt`/`setAt`. Cell (x, y) sits at `x + (width + 1) * y`, because the `'\n'` separators are never removed. `Index` is defined row by row; `IndexFormula` proves the closed form.
- `Parse` and `ParseCorrected` (`parse.dfy`): the constructor's measuring loop, both as written (`MeasureAsWritten`, summarised by `Dimensions`) and as evidently intended (`Measure`). See "Findings".
- `Positions` (`position.dfy`): `Position` and its comparison operators. All of them look at x and y only, never at the cost.
- `Moves` (`moves.dfy`): the four guarded moves with `size_t` wrap-around, plus the cost table and markers of `input.h`.
- `PathTree` (`pathtree.dfy`): the nodes, kept in an arena (a sequence). Each node names its parent by index and the root is node 0. `Node::parentsContain` and `Node::print` are modelled as loops along the parent chain.
- `Engine` (`engine.dfy`): the solver state, the constructor, and the invariant `Valid` that every step keeps. The state is a fixed `Config` (grid, table, markers, move lists) plus the arena, the queue, the open set `nextSet` and the closed set `lookedAt`.
- `Expand` and `ExpandProps` (`expand.dfy`): `addAroundCur`.
  - `AddAround` describes the result all at once.
  - `AddAroundCur` is the source's loop; it is proved to compute the same result.
- `Search` (`search.dfy`): popping the queue. `PopOne` is one pass of the batch loop and `Batch` is the whole loop.
- `Steps` (`steps.dfy`): `Solver::step` as a pure function from state to (state, bool), plus the goal selection, repeated steps, and the unsolvable case.
- `Render` (`render.dfy`): `Solver::print`.

The priority queue is a sequence of arena indices. The top is an entry of least total cost: the first such entry in the sequence. `std::priority_queue` leaves the order among equal costs open, and this is one order it may produce. The batch loop only depends on that order through which equal-cost entry is expanded first.

## Model

| member | source | states |
|---|---|---|
| Grid.GetAtFlat | src/dijkstra.h:16-19 | reading cell (x, y) gives character x + (width + 1) * y of the text, which lies inside it |
| Grid.SetAt | src/dijkstra.h:21-23 | writing cell (x, y) changes exactly the character at x + (width + 1) * y; the length and every other character are unchanged |
| Grid.GetAfterSet | src/dijkstra.h:16-23 | reading a cell after writing it gives the written symbol; writing one cell leaves every other cell's symbol alone |
| Grid.IndexInRange | src/dijkstra.h:16-19 | on a rectangular text, every cell (x, y) with x < width and y < height has a flat index inside the text |
| Grid.IndexInjective | src/dijkstra.h:16-19 | distinct cells of the grid have distinct flat indices |
| Positions.Eq | src/dijkstra.h:36-39 | `==` holds exactly when neither position is `<` the other, the equivalence `std::set` keys `nextSet` and `lookedAt` by; that is, exactly when the coordinates agree, whatever the costs |
| Positions.Ne | src/dijkstra.h:41-43 | `!=` holds exactly when the coordinates differ |
| Positions.Less | src/dijkstra.h:45-51 | `<` orders by x, then by y |
| Positions.LessEq | src/dijkstra.h:53-55 | `<=` is `<` or equal coordinates |
| Positions.Greater | src/dijkstra.h:57-59 | `>` is the reverse of `<` and excludes both `<` and equality |
| Positions.GreaterEq | src/dijkstra.h:61-63 | `>=` is `>` or equal coordinates |
| Positions.LessIsStrictTotalOrder | src/dijkstra.h:45-51 | `<` is irreflexive, transitive and asymmetric; exactly one of `<`, `==` and `>` holds for any two positions |
| Positions.CostIsIgnored | src/dijkstra.h:36-51 | changing a position's cost changes neither its equality nor its order with any other position |
| PathTree.Chain | src/dijkstra.h:86-103 | the parent chain of node i starts at i, ends at the root, and stays inside the arena |
| PathTree.ChainFollowsParents | src/dijkstra.h:88-91 | consecutive chain entries are child and parent; the last entry has no parent |
| PathTree.ParentsContain | src/dijkstra.h:94-103 | the answer is true exactly when some node on the chain from i to the root has the coordinates of p |
| PathTree.PrintChain | src/dijkstra.h:86-92 | the result is the field with exactly the cells of the chain (node i and the root included) overwritten by the marker |
| PathTree.TotalCostIsPathSum | src/dijkstra.h:144 | a node's total cost is the sum of the cell costs entered along its path from the root |
| Moves.IncDecAreModular | src/input.h:32-43 | `+= 1` and `-= 1` on a size_t are addition and subtraction of one modulo 2^64, so SIZE_MAX steps up to 0 and 0 steps down to SIZE_MAX |
| Moves.Apply | src/input.h:31-44 | every move keeps both coordinates within size_t |
| Moves.GuardedMoveIsUnitStep | src/input.h:17-44 | a move's guard holds exactly when the move changes one coordinate by exactly one, so each guard blocks exactly the wrap-around |
| Moves.MoveDeltas | src/input.h:31-44 | when guarded, the four moves go +x, +y, -x and -y |
| Moves.InteriorMoveStaysInside | src/input.h:17-44 | from a cell off the border every guard passes, and every move lands on a neighbouring grid cell |
| Moves.CostTableFacts | src/input.h:14-16 | every table entry is positive; the goal '%' has a cost, while the start 'F' and the wall '#' have none |
| Moves.MovesetFacts | src/input.h:17-44 | both lists have four entries, so the constructor's count check passes; the moves go +x, +y, -x, -y in that order |
| Parse.JoinLines | src/dijkstra.h:172-190 | joining the lines with '\n' gives the text back |
| Parse.LinesCount | src/dijkstra.h:172-190 | no line holds '\n', and there is one line more than there are '\n' characters |
| Parse.StartIsLastOccurrence | src/dijkstra.h:174-177 | the recorded start cell is the cell of the last character equal to `start` |
| Parse.StartAt | src/dijkstra.h:170-177 | without any `start` character the root stays at (0, 0) |
| Parse.TerminatedOkSnoc | src/dijkstra.h:178-186 | closing a line sets `width1` while it is 0; the in-loop check then passes exactly when the closed line has that width |
| Parse.ScanChar | src/dijkstra.h:173-189 | one pass of the loop either keeps the loop state in step with the text read so far, or throws only when some closed line fails the check |
| Parse.MeasureAsWritten | src/dijkstra.h:169-198 | the constructor's loop as written: it accepts exactly the texts that pass the as-written check; it fails in the loop exactly when a closed line mismatches; on success it gives width1, 1 + number of '\n', and the last start cell; it agrees with the line-based summary `Dimensions` |
| ParseCorrected.Measure | src/dijkstra.h:169-198 | the intended check: success exactly when every line, the last included, is as wide as the first. Then the width is that common length, the height is 1 + the number of '\n', the text is a rectangle of those dimensions, and the start is the last `start` cell. The last-line error is reported only when every closed line matched |
| ParseCorrected.SameWidthRectangular | src/dijkstra.h:169-198 | a text whose lines share one width w holds exactly (w + 1) * height - 1 characters |
| ParseCorrected.CellIsLineCharacter | src/dijkstra.h:16-19 | on an accepted grid, getAt(x, y) is character x of line y |
| ParseCorrected.CoordOfIndex | src/dijkstra.h:172-189 | on an accepted grid, the loop's (width2, height1 - 1) at character i is the cell whose flat index is i |
| ParseCorrected.RootCellIsLastStart | src/dijkstra.h:174-177 | on an accepted grid the root's cell holds `start` and is its last occurrence |
| ParseCorrected.AsWrittenAgreesWhenFirstLineNonEmpty | src/dijkstra.h:178-193 | when the first line is closed and non-empty, the as-written check accepts exactly the texts whose lines all have one width |
| ParseCorrected.DimensionsAgree | src/dijkstra.h:169-198 | when the first line is closed and non-empty, the as-written measurement and the intended one give the same result, error or dimensions |
| ParseCorrected.LeadingEmptyLineAccepted | src/dijkstra.h:179-181 | "\nab\nab" passes the as-written check although its rows differ in width; the intended check rejects it |
| ParseCorrected.SingleLineRejected | src/dijkstra.h:191-193 | the one-row grid "ab" fails the as-written check although it is a rectangle; the intended check accepts it |
| Engine.Construct | src/dijkstra.h:159-204 | the constructor as written: it succeeds exactly when the text passes the as-written line check and the two move lists have one length. A closed line of the wrong width throws first, then a last line of the wrong width, then a count mismatch. On success the width is width1 (the first non-zero closed width), the height is 1 + the number of '\n', the root sits at the last start cell with cost 0 and no parent, and the queue and both sets are empty |
| Engine.ConstructCorrected | src/dijkstra.h:159-204 | the constructor with the intended check: it succeeds exactly when every line is as wide as the first and the move lists have one length; the text is then a rectangle of the reported width and height, with the same root and empty queue and sets |
| Engine.ConstructAgrees | src/dijkstra.h:169-198 | when the first line is closed and non-empty, as in the shipped grid, the constructor as written and the corrected one give the same solver or the same error |
| Engine.ConstructCorrectedShape | src/dijkstra.h:114-115 | a solver the corrected constructor builds from a text that fits a size_t has the grid shape the invariant asks for |
| Engine.ShapeBounds | src/dijkstra.h:114-115 | the width and height of a grid whose text fits a size_t fit a size_t too |
| Engine.ConstructValid | src/dijkstra.h:159-204 | a solver the constructor builds on a rectangular, walled-in grid, with its start off the border, satisfies the invariant |
| Engine.OpenAndClosedDisjoint | src/dijkstra.h:125-126 | the open and closed sets never share a cell |
| Expand.Target | src/dijkstra.h:135-143 | a move is taken only to an admitted, unclosed cell one step from `cur` |
| Expand.Taken | src/dijkstra.h:131-143 | the destinations taken are at most one per move; each is admitted, unclosed and one step from `cur` |
| Expand.TakenIsTargets | src/dijkstra.h:131-143 | a cell is among the destinations exactly when some move, tried in list order, is taken to it |
| Expand.AddAroundCur | src/dijkstra.h:130-156 | the loop creates, in move-list order, exactly the children `AddAround` describes. For each: a queue entry, its cell opened, and a goal candidate when its symbol is the goal symbol |
| Expand.TryMove | src/dijkstra.h:131-155 | one pass of the move loop extends the arena, queue, open set and candidates by exactly the child for move i, when that move is taken |
| ExpandProps.TargetFrame | src/dijkstra.h:135-143 | closing more cells only turns taken moves into untaken ones: a move's destination stays the same unless it was closed meanwhile |
| ExpandProps.ExtendedValid | src/dijkstra.h:143-147 | creating children for admitted, unclosed neighbours keeps the solver's invariant |
| ExpandProps.AddAroundValid | src/dijkstra.h:130-156 | addAroundCur keeps the invariant; it only appends to the arena and the queue; the closed set and the found node are unchanged |
| Expand.Child | src/dijkstra.h:140-144 | the node created for a destination has `cur` as parent, the destination's coordinates, the table price of the destination's symbol as its cost, and `cur`'s total cost plus that price as its total cost |
| ExpandProps.AddAroundQueues | src/dijkstra.h:144-146 | every entry addAroundCur queues is a new node whose parent is `cur`; every node it appends to the arena has parent `cur` and is queued |
| ExpandProps.AddAroundGoals | src/dijkstra.h:149-151 | the candidates appended are exactly the new nodes on goal cells, in creation order; earlier candidates are kept |
| ExpandProps.GoalsExact | src/dijkstra.h:149-151 | a new index is a candidate exactly when its destination holds the goal symbol; candidates increase strictly |
| ExpandProps.QueueKeysAppend | src/dijkstra.h:146-147 | queuing the new nodes opens exactly their cells |
| Search.TopFrom | src/dijkstra.h:106-110 | the top is an entry of least total cost; every entry before it costs strictly more |
| Search.Remove | src/dijkstra.h:243 | popping removes exactly one copy of the entry: the queue's multiset loses that entry, every other entry stays and none is added |
| Search.Closed | src/dijkstra.h:243-248 | popping an open top entry takes one copy of it off the queue and moves its cell from the open set to the closed set; every other cell keeps its membership, and the arena, the found node and the configuration are unchanged |
| Search.TopKeyFacts | src/dijkstra.h:245-246 | the top's cell is open exactly when it is not closed |
| Search.PopOne | src/dijkstra.h:238-251 | one pass of the batch loop keeps the invariant and closes the top's cell. A stale entry, whose cell is already closed, is discarded with nothing else changed; the closed set only grows |
| Search.PopOneEntries | src/dijkstra.h:243-250 | after a pop, every other entry is still queued, every new entry is a child of the popped node, and every node the pop creates is queued |
| Search.PopOneGoals | src/dijkstra.h:243-251 | one pass of the batch loop appends to the candidates exactly the nodes it creates on goal cells, in creation order |
| Search.Batch | src/dijkstra.h:234-252 | the batch keeps the invariant; the candidates it appends are exactly the nodes it creates on goal cells, in creation order; when it ends, the queue is empty or its top costs something other than curCost |
| Search.BatchPopsOnlyCurCost | src/dijkstra.h:236-243 | every entry the batch removes cost exactly curCost: both the entries queued when it began and the nodes it creates and then pops itself (possible with a zero-cost cell) |
| Search.BatchFinishesTier | src/dijkstra.h:234-252 | with positive cell costs, a batch begun at the queue's minimum leaves only strictly dearer entries: one step finishes a cost tier |
| Steps.SelectMin | src/dijkstra.h:255-263 | the selection loop keeps no candidate exactly when all cost at least INT_MAX. Otherwise it keeps one of least cost, and every earlier candidate costs strictly more, so the first wins ties |
| Steps.Record | src/dijkstra.h:255-270 | the step answers true exactly when it produced candidates; `found` becomes the cheapest candidate, the first of equal cost; nothing else changes |
| Steps.Advance | src/dijkstra.h:229-253 | the invariant holds and the candidates are exactly the new nodes on goal cells, in creation order. With an empty queue the root is expanded: every new node is a child of the root and nothing is closed. Otherwise one cost tier is popped: afterwards the queue is empty or its top costs something else |
| Steps.RootExpansion | src/dijkstra.h:231-232 | expanding the root keeps the invariant, closes nothing, makes the root the parent of every new node, and collects exactly the new goal nodes |
| Steps.CheapestGoals | src/dijkstra.h:255-263 | when the candidates are exactly the new goal nodes, there is a candidate exactly when a new goal node exists; the cheapest candidate is the first new goal node of least cost; when all cost at least INT_MAX, so do all new goal nodes |
| Steps.Step | src/dijkstra.h:224-271 | a step keeps the invariant and only grows the arena and the closed set; once found, it answers true and changes nothing. Before that, it answers true exactly when it created a node on a goal cell; `found` becomes the first such node of least cost; it stays unset only when every such node costs at least INT_MAX |
| Steps.Run | src/dijkstra.h:224-271 | any number of steps keeps the invariant and the configuration |
| Steps.FoundIsFinal | src/dijkstra.h:225-227 | once a goal is found, every later step answers true and changes nothing |
| Steps.StuckForever | src/dijkstra.h:229-232 | with the queue empty, no goal found and no move from the root taken, a step re-expands the root, adds nothing and answers false, and so does every later step |
| Steps.RootExpansionCovers | src/dijkstra.h:143-147 | after the root is expanded, every move from the root that its guard and the cost table admit leads to a closed or an open cell |
| Steps.PopOneKeepsRootCovered | src/dijkstra.h:243-250 | one pass of the batch loop keeps every move from the root that its guard and the cost table admit leading to a closed or an open cell |
| Steps.BatchKeepsRootCovered | src/dijkstra.h:236-252 | the whole batch loop keeps every move from the root that its guard and the cost table admit leading to a closed or an open cell |
| Steps.AdvanceCovers | src/dijkstra.h:229-253 | the expansion part of a step establishes, or keeps, that every move from the root that its guard and the cost table admit leads to a closed or an open cell |
| Steps.RecordCovers | src/dijkstra.h:255-270 | recording the goal keeps that every move from the root that its guard and the cost table admit leads to a closed or an open cell |
| Steps.StepKeepsRootCovered | src/dijkstra.h:224-271 | a step from an unsolved state keeps that every move from the root that its guard and the cost table admit leads to a closed or an open cell |
| Steps.RunRootCovered | src/dijkstra.h:224-271 | after one or more steps from an empty queue, as long as nothing is found, every move from the root that its guard and the cost table admit leads to a closed or an open cell |
| Steps.SearchStuck | src/dijkstra.h:229-232 | when steps from an empty queue have emptied the queue again without finding a goal, no move from the root is taken any more, so that step and every later one answer false and change nothing |
| Steps.ConstructedSearchStuck | src/dijkstra.h:159-271 | the same for a freshly constructed solver on a rectangular, walled-in grid: it satisfies the invariant, and once its search has run dry without a goal it stays stuck, answering false |
| Steps.FoundCostIsPathSum | src/dijkstra.h:265 | the found node's cost is the sum of the cell costs along its path |
| Render.MarkCells | src/dijkstra.h:214-216 | the loop over the open set marks exactly the open cells in a copy of the field |
| Render.Print | src/dijkstra.h:210-222 | print returns the field with exactly the open cells marked when no goal is found, and exactly the found node's path when one is |

## Left out

- `src/main.cpp` is not part of this model. Its console output, cursor escapes, animation flag and sleeping are I/O and timing.
- The `std::cout` debug prints in the constructor (lines 182 and 195) are output only.
- `~Node` and `~Solver`, and each node's `next` list of children, exist only for memory ownership. The arena with parent indices replaces them.
- The `std::function` closures are modelled as a datatype of four directions. `Check` is the guard and `Apply` the transform; the constructor still receives two separate lists and compares their lengths.
- `getAt` does no bounds checking. The model instead requires the grid to be walled in (`Enclosed`: every cell with a cost lies off the border), as the shipped grid is, and the start cell to lie off the border. Out-of-range reads are not modelled.
- Steps.Step: `totalCost` is an `int` in the source and could overflow on huge grids. The model uses unbounded integers and does not model that overflow.
- Search.TopFrom: `std::priority_queue` fixes no pop order among equal costs. The model pops the first such entry, which is one order the heap may produce; other orders are not modelled.
- Render.MarkCells: `print` walks `nextSet` in `std::set` order. The model marks cells in an unspecified order, which gives the same string.
- Engine.ConstructValid: requires the text to be a rectangle of the measured size (`Shape`). The as-written constructor also accepts texts that are not, such as "\nab\nab"; the invariant and the step properties say nothing about those solvers.
- `width()`, `height()` and `finalPath()` are plain field reads (`cfg.width`, `cfg.height`, `found`).
- The test file's `SOLVE_INCOMPLETE` / `SOLVE_COMPLETE` / `SOLVE_NO_SOLUTION` constants do not exist in the header. `step` is modelled as returning the header's `bool`. The sample grid text in `src/input.h` is data only.
- Global optimality of the found path is not proved. The model proves what the batch loop and the minimum selection state: each step finishes one cost tier, and the cheapest candidate of that step wins.

## Findings

| source | as written | input that shows it | evidently intended | confidence | as-written member | corrected member |
|---|---|---|---|---|---|---|
| src/dijkstra.h:179-181 | `width1 == 0` doubles as "width not yet set", so closed empty lines before the first non-empty one are never checked | "\nab\nab" is accepted, though its first row is empty and the others are two wide | every row, the first included, must have the first row's width | not executed | Parse.MeasureAsWritten, Engine.Construct, ParseCorrected.LeadingEmptyLineAccepted | ParseCorrected.Measure, Engine.ConstructCorrected, ParseCorrected.DimensionsAgree |
| src/dijkstra.h:191-193 | with no '\n', `width1` stays 0, so the final check compares the only line's width with 0 | "ab" (one row of two cells) is rejected | a one-row grid is a rectangle and is accepted | not executed | Parse.MeasureAsWritten, Engine.Construct, ParseCorrected.SingleLineRejected | ParseCorrected.Measure, Engine.ConstructCorrected |

`Engine.Construct` follows the source and uses the as-written check; `Engine.ConstructCorrected` uses the intended `Measure`. On every text whose first line is closed and non-empty, which includes the shipped grid, the two constructors give the same result (`Engine.ConstructAgrees`). The invariant `Valid`, and with it everything proved about steps, covers solvers whose text is a rectangle of the measured size: that holds for everything `ConstructCorrected` accepts, but not for a text such as "\nab\nab", which `Construct` accepts.
