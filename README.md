# Game of Life API — verified model of the engine and board lifecycle

This project models the core of a small web service for Conway's Game of
Life on a bounded board:

- **The transition engine** (`engine.dfy`) works on the jagged `bool[][]`
  arrays the service passes around.
  - `CountLiveNeighbors` scans the 3x3 window around a cell. It skips the
    centre and any position off the board, so there is no wrap-around.
  - `GetNextGeneration` allocates a new board of the same shape and fills it
    cell by cell with the rule: a live cell survives on 2 or 3 neighbours,
    and a dead cell is born on exactly 3.
  - `AreBoardsEqual` compares two boards cell by cell and stops at the
    first difference.
  - Each method is proved against a value-level specification over
    `Grid = seq<seq<bool>>` (`NeighborCount`, `NextGeneration`, `SameCells`).
    The facts the service relies on are lemmas about that specification.
- **The board lifecycle** (`lifecycle.dfy`) is a `GameService` class over a
  `BoardRepository` class that holds a map from board id to stored state.
  The repository also keeps a ghost log of every add and update, so each
  operation states exactly what it writes and when.
  - `CreateBoard` validates and stores a new board.
  - `GetNextState` does one step and writes it back.
  - `GetStateAfterSteps` does exactly N steps and one write.
  - `GetFinalState` runs a bounded search for a generation that maps to
    itself, and writes only when it finds one.
- **The text rendering** (`ascii.dfy`): `ParseToAscii` appends each cell's
  glyph and a space, and one line terminator after each row. It is proved
  equal to a recursive `Render` specification. Lemmas give the length, the
  row-major line layout and the number of line breaks.
- **Worked boards** (`patterns.dfy`), taken from the service's tests:
  - the 3x3 blinker oscillates, so the stability search never succeeds;
  - the 3x3 glider is squeezed into a block after three steps, which the
    search returns;
  - an all-dead board is returned at once.

`grids.dfy` holds the shared vocabulary: `Grid`, `Rectangular`, `IsBoard`,
and `Cells`, the value held by a jagged array.

## Model

| member | source | states |
|---|---|---|
| Engine.CountLiveNeighbors | GameOfLifeApi/Services/GameService.cs:197-230 | the count equals the number of live, on-board positions among the eight cells around `(row, col)`; the centre and off-board positions never count; the older copy at Services/GameOfLifeService.cs:55-88 has the same body |
| Engine.GetNextGeneration | GameOfLifeApi/Services/GameService.cs:155-188 | the result is a freshly allocated board whose rows are freshly allocated and pairwise distinct, whose value is `NextGeneration` of the input; the input board is unchanged; the older public copy at Services/GameOfLifeService.cs:13-46 has the same body |
| Engine.NextRow | GameOfLifeApi/Services/GameService.cs:162-185 | the freshly allocated row `i` holds, for each column, the rule applied to the old cell and its neighbour count |
| Engine.AreBoardsEqual | GameOfLifeApi/Services/GameService.cs:238-251 | returns true exactly when every cell of the first board, over its rows and first-row width, equals the cell at the same place in the second; the older copy at Services/GameOfLifeService.cs:96-109 has the same body |
| Engine.NextGeneration | GameOfLifeApi/Services/GameService.cs:157-162 | the next generation has the input's row count, and every row has the input's column count |
| Engine.NextGenerationRow | GameOfLifeApi/Services/GameService.cs:165-184 | each cell of the next generation is the rule applied to the old cell and its live-neighbour count |
| Engine.NextGenerationIs | GameOfLifeApi/Services/GameService.cs:155-188 | any grid of the input's shape that obeys the rule in every cell is the next generation |
| Engine.ConwayRules | Services/GameOfLifeService.cs:26-42 | the two checks agree with Conway's four rules: a live cell dies below 2 neighbours, lives on 2 or 3, and dies above 3; a dead cell is born exactly on 3 |
| Engine.NeighborCountSum | GameOfLifeApi/Services/GameService.cs:210-229 | the count is the sum over the eight window positions of 1 for an on-board live cell and 0 otherwise |
| Engine.NeighborCountBound | Services/GameOfLifeService.cs:68-87 | the neighbour count is between 0 and 8 |
| Engine.CornerHasThreeNeighbors | GameOfLifeApi/Services/GameService.cs:218-223 | hard edges: the top-left cell sees only its three on-board neighbours |
| Engine.SameCellsIsEquality | GameOfLifeApi/Services/GameService.cs:238-251 | for boards of the same shape, cell-by-cell agreement is exactly equality; so the comparison is reflexive, and it succeeds exactly on a fixed point |
| Engine.Iterate | GameOfLifeApi/Services/GameService.cs:138-142 | any number of transitions keeps the board's shape |
| Engine.IterateAdds | GameOfLifeApi/Services/GameService.cs:138-142 | `a + b` transitions are `a` transitions followed by `b` more |
| Engine.FixedPointStays | GameOfLifeApi/Services/GameService.cs:98-110 | a board that maps to itself stays the same however often it is stepped |
| Engine.ScanCell | GameOfLifeApi/Services/GameService.cs:215-226 | one visit of the scan at `(r, c)`: the skip and the bounds-checked read add exactly that position's live neighbour to the running count |
| Lifecycle.BoardRepository.AddBoard | GameOfLifeApi/Repositories/BoardRepository.cs:16-19 | inserts the board under its new id and logs one add |
| Lifecycle.BoardRepository.GetBoardById | GameOfLifeApi/Repositories/BoardRepository.cs:21-25 | returns the stored state for a known id and nothing for an unknown one |
| Lifecycle.BoardRepository.UpdateBoard | GameOfLifeApi/Repositories/BoardRepository.cs:27-31 | replaces the state of a stored id, leaves the map alone for an unknown id, and logs one update |
| Lifecycle.FreshId | GameOfLifeApi/Services/GameService.cs:41 | the new board's id is not used by any stored board |
| Lifecycle.Deserialize | GameOfLifeApi/Helpers/BoardStateConverter.cs:11 | a stored null reads back as null; otherwise a freshly allocated board holding the stored grid |
| Lifecycle.Messages | GameOfLifeApi/Services/GameService.cs:26-125 | each `Error` constructor's text is the failure message the service returns, and the attempts message for the default limit reads "Final state not reached after 1000 attempts." |
| Lifecycle.GameService.constructor | GameOfLifeApi/Services/GameService.cs:12-15 | the service keeps the repository it was given |
| Lifecycle.GameService.CreateBoard | GameOfLifeApi/Services/GameService.cs:22-47 | fails with "Board is empty" exactly for a null input, no rows or an empty first row, and with "Board must be rectangular" exactly when some row differs from the first; both failures leave the repository unchanged; otherwise it adds exactly one board, under a fresh id that it returns, holding the input grid |
| Lifecycle.GameService.GetNextState | GameOfLifeApi/Services/GameService.cs:55-76 | fails with "Board not found." exactly when the id is absent or the state reads back as null, and then writes nothing; otherwise it returns a fresh board holding the next generation, and that is exactly the one state written back |
| Lifecycle.GameService.GetStateAfterSteps | GameOfLifeApi/Services/GameService.cs:122-148 | a step count below 1 fails with "Steps must be at least 1." before any lookup; a missing board fails with "Board not found."; failures write nothing; otherwise it returns and writes back exactly the generation `steps` transitions on |
| Lifecycle.GameService.GetFinalState | GameOfLifeApi/Services/GameService.cs:84-114 | a missing board fails with "Board not found."; otherwise it fails with the attempts message exactly when none of the first `maxAttempts` generations maps to itself, and then writes nothing; on success it returns and writes back the successor of the first such generation |
| Lifecycle.SearchFinalState | GameOfLifeApi/Services/GameService.cs:97-113 | returns null exactly when no generation before `maxAttempts` maps to itself; otherwise it returns the successor of the first one that does |
| Lifecycle.StepAndCompare | GameOfLifeApi/Services/GameService.cs:100-102 | one attempt: the next board is the next generation, and the comparison is true exactly when the current board is a fixed point |
| Lifecycle.UnsettledMeans | GameOfLifeApi/Services/GameService.cs:97-113 | the search's running condition holds exactly when none of the first `n` generations is a fixed point |
| Lifecycle.SettledStays | GameOfLifeApi/Services/GameService.cs:102-108 | once a fixed point has been met, every longer run of attempts has met one |
| Lifecycle.Attempt | GameOfLifeApi/Services/GameService.cs:100-110 | after one attempt, either the current generation is the first fixed point and the search stops with success, or one more generation is known unsettled |
| Ascii.ParseToAscii | GameOfLifeApi/Helpers/AsciiConverter.cs:10-23 | the text is `Render` of the board: each cell's glyph and a space, row by row, with one terminator after each row; the duplicate at Helpers/AsciiConverter.cs:7-19 has the same body |
| Ascii.RenderRowAt | GameOfLifeApi/Helpers/AsciiConverter.cs:15-19 | cell `c` of a row is at offset `2c` as its glyph, `live` for true and `dead` for false, and offset `2c + 1` is a space |
| Ascii.RenderLength | GameOfLifeApi/Helpers/AsciiConverter.cs:13-21 | an R x C board renders to R * (2C + terminator length) characters; a board with no rows renders to the empty string |
| Ascii.RenderLine | GameOfLifeApi/Helpers/AsciiConverter.cs:13-21 | row-major order: for an R x C board, with lines of W = 2C + terminator length characters, the characters from `r * W` up to `(r + 1) * W` are row `r`'s cells followed by one terminator |
| Ascii.RenderLastLine | Helpers/AsciiConverter.cs:10-18 | the last line of the text is the last row |
| Ascii.RenderLineBreaks | GameOfLifeApi/Helpers/AsciiConverter.cs:13-20 | with a `"\n"` terminator and glyphs other than `'\n'`, the text holds exactly one line break per row |
| Ascii.RowHasNoLineBreak | Helpers/AsciiConverter.cs:12-16 | a row's text holds no line break when neither glyph is one |
| Patterns.BlinkerFlips | GameOfLifeTests/Unit/GameServiceTests.cs:186-210 | the horizontal 3x3 blinker steps to the vertical one |
| Patterns.BlinkerFlipsBack | GameOfLifeTests/Unit/GameServiceTests.cs:186-210 | the vertical blinker steps back to the horizontal one |
| Patterns.BlinkerPhase | GameOfLifeTests/Unit/GameServiceTests.cs:186-210 | generation `k` of the blinker is horizontal when `k` is even and vertical when it is odd |
| Patterns.BlinkerNotStill | GameOfLifeTests/GameServiceTests.cs:155-180 | neither phase of the blinker is a fixed point |
| Patterns.BlinkerNeverSettles | GameOfLifeTests/Unit/GameServiceTests.cs:186-210 | for every limit, no generation of the blinker is a fixed point, so the final-state search fails |
| Patterns.GliderFirstStep | GameOfLifeTests/Unit/GameServiceTests.cs:45-84 | the glider's first step on a 3x3 board |
| Patterns.GliderSecondStep | GameOfLifeTests/Unit/GameServiceTests.cs:106-141 | the glider's second step on a 3x3 board |
| Patterns.GliderThirdStep | GameOfLifeTests/Unit/GameServiceTests.cs:106-141 | the glider's third step reaches the bottom-right 2x2 block |
| Patterns.BlockIsStill | GameOfLifeTests/Unit/GameServiceTests.cs:145-183 | the bottom-right block is a fixed point |
| Patterns.GliderSettles | GameOfLifeTests/Unit/GameServiceTests.cs:106-183 | generations 3, 4 and 5 of the glider are the block; with more than 3 attempts, generation 3 is the first fixed point, so the search succeeds |
| Patterns.DeadBoardIsStill | GameOfLifeTests/GameServiceTests.cs:123-151 | a board of any size with no live cell is a fixed point |
| Patterns.DeadBoardSettlesAtOnce | GameOfLifeTests/GameServiceTests.cs:123-151 | the search on a dead board succeeds on its first attempt and returns the board unchanged |

## Left out

- Board ids: `Guid.NewGuid()` becomes `FreshId`, which returns some natural number not already used as a key. It is nondeterministic in the service and opaque to its logic.
- The `CreatedAt` and `LastUpdated` timestamps are dropped. They are clock readings that no operation reads.
- Serialisation: `BoardStateConverter` is a thin JSON wrapper. The stored state is the grid itself, and an `Option` stands for a document that deserialises to null. Malformed JSON, which throws in the service, is not modelled.
- `async` and `Task` become sequential methods. No concurrency is modelled, so there are no interleaved writes.
- Database failures, such as a duplicate-key insert or a lost connection, are not modelled. `AddBoard` requires a fresh id, and `FreshId` supplies one.
- Null rows inside a jagged array: the arrays in the model have non-null rows. A null row makes the service throw.
- Engine.GetNextGeneration, Engine.CountLiveNeighbors, Engine.AreBoardsEqual: these require a rectangular board with at least one row. The code reads `board[0].Length` as the column count, so it only needs every row to be at least as long as the first. The model does not cover ragged boards, which board creation never stores.
- Ascii.ParseToAscii: the line terminator is a parameter, because the source appends the platform's line separator. The default glyphs `'O'` and `'.'` are not fixed either; the caller passes them.
- Lifecycle.GameService.GetFinalState: `maxAttempts` is an ordinary parameter. The source's default value of 1000 comes from the caller's side of the call.
- Engine.NextRow, Lifecycle.SearchFinalState, Lifecycle.StepAndCompare: these hold loops or loop bodies that the source writes inline in `GetNextGeneration` and `GetFinalStateAsync`. They are separate methods so that each proof stays small. The values read and written are the same as in the source, but the order of allocations and writes is not. The model starts the new board with a shared empty placeholder row where the source has null entries. It attaches each row after filling it, where the source attaches it first. `NextRow` reads the column count again on each call, where the source reads it once.
- Lifecycle.GameService.GetNextState, Lifecycle.GameService.GetStateAfterSteps, Lifecycle.GameService.GetFinalState: the source mutates the loaded `Board` record and passes it to the update call. The model passes the id and the new state, which is the only part of the record that changes apart from the dropped timestamp.
- The controllers, the result-to-HTTP mapping, the exception filter, the dependency-injection setup and the database contexts are outside the modelled core.
- `Services/GameOfLifeService.cs` and `Helpers/AsciiConverter.cs` duplicate the engine and the renderer. Each is modelled once, and the table cites both copies.
