# Grid path search, modelled in Dafny

This project models the path-search engine of `a_star.cpp`. The engine reads a grid of cells, each open (`0`) or an obstacle. It then searches from a start cell towards a goal cell:

- It keeps a frontier of records `{x, y, g, h}`.
- Before each step it sorts the frontier so that the least `g + h` is at the back.
- It pops that record. If it is the goal, it marks the start and the goal and returns the grid.
- Otherwise it marks the cell as on the path and pushes every open neighbour, closing it at once.
- When the frontier runs dry, it returns an empty grid.

The model has three modules:

- `Grid` (`grid.dfy`) holds:
  - the six cell states;
  - the line parser;
  - the validity test for a move;
  - the set of open cells of a grid;
  - the glyph each state is printed as.
- `Frontier` (`frontier.dfy`) holds the frontier record, the comparator and the sort.
- `Search` (`search.dfy`) holds:
  - the Manhattan heuristic and the table of the four moves;
  - `addPoint`, `expandNeighbours` and the main loop `astarSearch`;
  - the reachability notion the result is judged against.

A grid is a sequence of rows held by value, as the program holds its vector of vectors. The search takes the grid by value and works on its own copy. `addPoint` and `expandNeighbours` update the frontier and the grid through references. Their models take both as inputs and return the new values.

The main result is `Search.AStarSearch`. For a rectangular grid and a start inside it, the search returns a non-empty grid exactly when a walk of side-sharing moves through open cells leads from the start to the goal. On success, the returned grid is the input with:

- every popped cell marked `Path`;
- every pushed but unpopped cell marked `Closed`;
- the start marked `Start` and the goal `Finish`. `Finish` wins when the two are the same cell.

Only the start cell can lose an obstacle. The loop terminates because `|open cells| + |frontier|` decreases on every pass.

The contract also ties the ghost record of the search (the cells in the order they were pushed and popped, and how many cells had been pushed at each pop) to what the loop does:

- The start is popped first, and nothing else is pushed before that.
- Every open neighbour of a popped cell other than the goal is pushed while that cell is expanded, before the next pop.
- Every cell pushed after the start is a side-sharing neighbour of a popped cell other than the goal. It is pushed after that cell's pop and before the next pop.
- Every pop takes a cell of least distance to the goal among the cells pushed so far and not yet popped. With `g == 0` on every record, that is the frontier's least `g + h`.

On the corridor `[[Empty, Empty, Empty]]` from `(0, 0)` to `(0, 2)`, these clauses admit one result only, `[[Start, Path, Finish]]` (`Search.CorridorResult`). On two open rows `[[Empty, Empty, Empty], [Empty, Empty, Empty]]` from `(0, 0)` to `(0, 2)` they admit only `[[Start, Path, Finish], [Closed, Closed, Empty]]`, the grid the program returns (`Search.TwoByThreeResult`).

Two places where the model follows the code rather than the usual description of A*:

- `expandNeighbours` passes the parent's `g` on unchanged (a_star.cpp:194, 207). Every record therefore carries `g == 0`, and the priority is the heuristic alone (`Search.EntryAt`). The search is greedy best-first.
- An unsuccessful search returns an empty grid (a_star.cpp:168), not the partly explored grid.

Other behaviour the model keeps:

- The goal is tested when it is popped, not when it is pushed.
- The start is pushed without a validity check, so a start on an obstacle is still searched from.
- The goal does not have to lie inside the grid. The code compares coordinates with it and measures Manhattan distances to it (a_star.cpp:139, 206). A goal outside the grid is never pushed, so it is unreachable.

## Model

| member | source | states |
|---|---|---|
| Grid.ParseLine | a_star.cpp:112-131 | one cell per token, in order; token 0 gives an open cell and every other integer an obstacle |
| Grid.IsValidCell | a_star.cpp:215-226 | on a non-empty rectangular grid a move onto (x, y) is valid exactly when (x, y) is an open cell of the grid (in bounds and Empty) |
| Grid.CellString | a_star.cpp:250-265 | obstacle, start, finish and path cells each print a glyph of their own, and open and closed cells print the same plain glyph |
| Frontier.CompareIsStrictWeakOrder | a_star.cpp:184-187 | the comparator (larger g + h first) is irreflexive, transitive, asymmetric, and incomparability is transitive, as sorting requires |
| Frontier.Insert | a_star.cpp:178-181 | inserting into a sorted frontier gives a sorted frontier with the same records plus the new one |
| Frontier.InsertKeepsDistinct | a_star.cpp:178-181 | inserting a new record into a frontier without repeats gives one without repeats |
| Frontier.CellSort | a_star.cpp:178-181 | the sorted frontier is a permutation of the old one, ordered by non-increasing g + h, and without repeats if the old one had none |
| Frontier.BackIsCheapest | a_star.cpp:145-147 | the back of a sorted frontier, the record popped, has the least g + h of all records |
| Search.ManhattanDistance | a_star.cpp:172-175 | the distance is non-negative and is zero exactly when the two cells coincide |
| Search.ManhattanIsSymmetric | a_star.cpp:172-175 | the distance does not depend on the order of its two cells |
| Search.ManhattanTriangle | a_star.cpp:172-175 | the distance obeys the triangle inequality |
| Search.StepsAreTheNeighbours | a_star.cpp:51 | the four moves of the table reach exactly the cells that share a side with a cell |
| Search.StepsAreDistinct | a_star.cpp:51 | two different moves of the table reach different cells |
| Search.HeuristicChangesByOne | a_star.cpp:51 | one move changes the distance to the goal by exactly one |
| Search.AddPoint | a_star.cpp:229-233 | the frontier gains exactly the record {x, y, g, h} at its back, and only cell (x, y) changes, to Closed |
| Search.ClosingRemovesOneOpenCell | a_star.cpp:229-233 | closing a cell as addPoint does removes exactly that cell from the open cells |
| Search.ExpansionIsSound | a_star.cpp:198-210 | an expansion pushes at most one record per move tried; each record is the neighbour reached by a move, carries the parent's g and its distance to the goal, and was open |
| Search.ExpansionIsComplete | a_star.cpp:198-210 | every move that lands on an open cell pushes that cell |
| Search.ExpansionIsDistinct | a_star.cpp:198-210 | no cell is pushed twice by one expansion |
| Search.ExpandStep | a_star.cpp:203-209 | during the loop, a move's target is a valid cell exactly when it was open before the expansion, and the frontier then grows by its record |
| Search.ExpandNeighbours | a_star.cpp:190-212 | the frontier gains exactly the records of the open neighbours, in table order; exactly those cells become Closed, and the open cells shrink by them |
| Search.ClosedOneMore | a_star.cpp:232 | closing one more cell adds it to the closed cells and leaves every other cell as it was |
| Search.ClosedExactlyOpenCells | a_star.cpp:232 | after the expansion closes its cells, the open cells are the earlier open cells minus the closed ones |
| Search.InitialInvariant | a_star.cpp:136-141 | pushing the start gives a frontier with one g == 0 record, and the invariant holds before the loop |
| Search.SortKeepsInvariant | a_star.cpp:145 | sorting keeps the invariant: it depends on which records are on the frontier, not on their order |
| Search.PopAndExpandKeepsInvariant | a_star.cpp:146-163 | popping a non-goal record and pushing its open neighbours keeps the invariant. The invariant says: each cell is pushed once; every frontier record is a g == 0 record of a pushed, unpopped cell; every open neighbour of a popped cell has been pushed; every pushed cell is reachable |
| Search.RemoveDistinct | a_star.cpp:207-208 | pushing k distinct open cells removes exactly k cells from the open set, which is why the termination measure goes down |
| Search.ClosedRegionBlocks | a_star.cpp:143-168 | a set of cells that holds the start and every open neighbour of its cells, but not the goal, blocks every walk to the goal |
| Search.ExhaustedFrontierMeansUnreachable | a_star.cpp:143-168 | when the frontier is empty and the goal was never popped, no walk through open cells reaches the goal |
| Search.ViewAfterPop | a_star.cpp:161 | marking the popped cell Path keeps the working grid equal to the input with popped cells Path and pushed cells Closed |
| Search.ViewAfterPush | a_star.cpp:163 | closing newly pushed cells keeps the working grid equal to that view of the input |
| Search.OpenCellsMatchView | a_star.cpp:220 | in the working grid the open cells are the input's open cells that were never pushed |
| Search.EndsMarked | a_star.cpp:155-156 | writing Start then Finish leaves Finish on the goal even when it is the start; every other cell keeps the view with the goal popped; only the start can lose an obstacle |
| Search.PoppedCellFacts | a_star.cpp:146-161 | the popped cell lies in the grid, and once it is marked Path the grid's open cells are still the unpushed open cells |
| Search.ExpandKeepsSearching | a_star.cpp:143-164 | one pass of the loop that does not meet the goal restores the loop invariant and the grid view |
| Search.GoalPoppedResult | a_star.cpp:153-158 | when the goal is popped it is reachable, and the grid with its ends marked is the result described above |
| Search.GoalPoppedRecord | a_star.cpp:146-158 | popping the goal, a pushed cell, keeps every cell popped once; the cells pushed and popped, and the neighbours pushed for every popped non-goal cell, hold over the input's open cells |
| Search.ExhaustedResult | a_star.cpp:166-168 | when the frontier runs dry, the goal is unreachable through the input's open cells and was never popped |
| Search.PopKeepsCheapest | a_star.cpp:145-147 | the cell popped from the back of the sorted frontier is no farther from the goal than any pushed cell not yet popped |
| Search.PopKeepsTrace | a_star.cpp:145-150 | a pop extends the record of the search: the start is popped first, every popped cell was pushed before its pop, and each pop takes a cell of least distance to the goal; every earlier expansion stays complete before the new pop, and a popped goal needs no expansion |
| Search.PopKeepsExpanded | a_star.cpp:145-147 | a pop ends the previous expansion at the number of cells pushed so far, so every earlier expanded cell had all its open neighbours pushed before this pop |
| Search.ExpansionIsAdjacent | a_star.cpp:198-208 | every cell an expansion pushes shares a side with the expanded cell |
| Search.PushKeepsTrace | a_star.cpp:161-163 | the cells pushed by expanding the cell just popped are recorded as its neighbours, pushed after its pop; once they are pushed, every neighbour of that cell open in the input has been pushed, before the next pop |
| Search.ExpansionCoversOpen | a_star.cpp:198-208 | every neighbour of the expanded cell that is still open is among the cells its expansion pushes |
| Search.PushKeepsExpanded | a_star.cpp:161-163 | after the expansion of the last popped cell, each of its neighbours open in the input is pushed, because the ones not pushed earlier were still open and the expansion pushes those; earlier expansions keep their bounds |
| Search.AStarSearch | a_star.cpp:134-169 | the result is non-empty exactly when the goal is reachable from the start through open cells. On success it is the input marked as described above. Each cell is pushed at most once and popped at most once, and pushed cells are reachable. The start is popped first. Every open neighbour of a popped non-goal cell is pushed while that cell is expanded, before the next pop, and every other pushed cell is the neighbour of a popped non-goal cell expanded just before. Each pop takes a pushed, unpopped cell of least distance to the goal. The loop ends because open cells plus frontier records decrease |
| Search.CorridorResult | a_star.cpp:134-169 | on the corridor [Empty, Empty, Empty] from its first cell to its last, the contract of the search admits only the result Start, Path, Finish |
| Search.TwoByThreeResult | a_star.cpp:134-169 | on two open rows of three cells from (0, 0) to (0, 2), the contract of the search admits only the result [[Start, Path, Finish], [Closed, Closed, Empty]]: the start pushes (1, 0) and (0, 1), the nearer (0, 1) is popped and pushes (1, 1) and the goal, and the goal is popped next |
| Search.PushCountsGrow | a_star.cpp:143-163 | the number of cells pushed by the time of a pop never decreases from one pop to any later one |
| Search.FirstExpansionPushes | a_star.cpp:141-163 | every cell pushed after the start and before the second pop shares a side with the first popped cell |

## Left out

- `main` (a_star.cpp:54-84): the argument check, the prompts and reading coordinates from the console are interactive I/O. `start` and `goal` are parameters of `Search.AStarSearch` instead.
- `readGridFile` (a_star.cpp:87-109): reading the file line by line is file I/O, and so is its error message. It is not part of this model.
- Grid.ParseLine: works on the integer tokens of a line. Stream extraction from a string is not modelled. Extraction fails on a token that is not an integer, or on one outside the range of `int` (a_star.cpp:118), and that ends the row. The model instead takes every token as an unbounded integer and turns an out-of-range one into `Obstacle`.
- `printGridData` (a_star.cpp:236-247) only renders output. `Grid.CellString` returns a tag for each of the five glyphs instead of the emoji strings.
- The "No path found" message (a_star.cpp:166) is console output.
- Frontier.CellSort: it is specified as any permutation sorted by non-increasing `g + h`. Its body inserts one record at a time, so equal-priority records may come out in a different order than `std::sort` would put them. `Search.AStarSearch` relies only on the contract of `CellSort`, so its results hold for every tie order. The exact path taken among ties is not modelled.
- Integers are unbounded. The program computes with 32-bit `int`. Coordinates of cells inside a grid that fits in memory cannot overflow. The distance to the goal (a_star.cpp:174) can overflow when the goal lies far outside the grid, for example goal (2000000000, 2000000000), which is undefined behaviour in C++. The model computes the exact distance instead. Such a goal is never pushed, so the search fails either way, but the order of pops may differ from the program's.
- Search.AStarSearch: requires a rectangular grid and a start inside it. The program takes the column count from the first row (a_star.cpp:218). On an empty grid, or with a start outside the grid, it writes outside its vectors when it closes the start (a_star.cpp:232). On a grid with a row shorter than the first, it can read outside its vectors once the search reaches a cell of a shorter row that lies inside the first row's width (a_star.cpp:220). Both are undefined behaviour. A grid whose later rows are longer than the first is read in bounds by the program, but the model does not cover it.
- Grids are values. The program's in-place updates through references become returned values, because every reference points to a copy the search owns and nothing else aliases it.
- The ghost outputs `enqueued`, `popped` and `pushedBefore` of `Search.AStarSearch`, and the ghost sets of open cells, are devices for stating the contract. The program does not compute them.
