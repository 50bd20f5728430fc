# Word-seeded Game of Life, in Dafny

This project models the simulator at the heart of the word game in
`api/cgol.py`. A word is encoded as one 8-bit binary row per character. The
rows seed a centred pattern of live cells on a nominal 60 x 40 board.
Conway's rules then step the pattern until an end-of-game check fires or a
generation cap is reached. The result is the number of generations run and
the summed live-cell counts of those generations (the score).

The model is split into one module per part of the source:

- `cells.dfy` (`Cells`) holds the board constants `Rows`, `Columns` and `CellNeighbours`, with cells as integer pairs and a generation as a set of cells. Coordinates are unbounded, as in the source.
- `encoder.dfy` (`Encoder`) is `convert_to_ascii_bitmask`: a loop (`ConvertToAsciiBitmask`) proved equal to a specification function `Bitmask`. Lemmas relate each row to the character's code point.
- `seeder.dfy` (`Seeder`) is `generate_initial_live_cells`: nested loops (`GenerateInitialLiveCells`) proved equal to `InitialLiveCells`. That function holds a cell exactly when the binary list has a `'1'` at the cell's offset from the centring origin.
- `step.dfy` (`StepEngine`) is `next_generation`, `continue_living` and `come_to_life`. The neighbour tally is built by the source's nested loops over a map (`CountNeighbours`, `AddNeighbours`). The step (`NextGeneration`) is proved equal to `Life`, the cell-by-cell Game of Life rule.
- `renderer.dfy` (`Renderer`) is `display_grid`: a loop collecting row texts, joined by newlines, proved to give one line per row with the live marker exactly on live cells.
- `history.dfy` (`History`) describes one end-of-game check as a value, `Check`. It also proves the window behaviour of a run of checks.
- `game.dfy` (`Game`) holds `class Cgol`. Its field `liveCellHistory` is the module-level deque `LIVE_CELL_HISTORY`, updated in place by `CheckEndConditions` and shared by every `RunGame` call. Each run is specified by the function `Simulate`, and the lemmas about runs are stated on it.

The game loop inside `RunGame` is written as the method `Cgol.Play`. `Play` sees the step only through a ghost function equal to `Life` at every generation. `SimulateSameStep` then turns the result back into a statement about `Life`.

Nothing here is executable I/O: `display_grid`'s text is returned as a string and never printed.

Two behaviours of the code that the model keeps as they are:

- `LIVE_CELL_HISTORY` is one history for the whole process; `run_game` never clears it (see Findings).
- `zfill(8)` pads but never truncates, so a code point of 256 or more gives a row longer than 8 digits (`Encoder.CharBitsWide`).

## Model

| member | source | states |
|---|---|---|
| Encoder.ZFill | api/cgol.py:42 | `zfill`: the result is at least `width` long; it ends with the input and starts with zeros only. |
| Encoder.BinaryRoundTrip | api/cgol.py:42 | `bin(n)[2:]` consists of '0'/'1' digits, and reading them back MSB first gives n. |
| Encoder.BinaryLength | api/cgol.py:42 | `bin(n)[2:]` has no leading zero: for n > 0, its length k satisfies 2^(k-1) <= n < 2^k. |
| Encoder.LeadingZerosValue | api/cgol.py:42 | Zero padding from `zfill` does not change the binary value. |
| Encoder.CharBitsByte | api/cgol.py:42 | A character below code point 256 gives exactly 8 binary digits whose value is its code point. |
| Encoder.CharBitsWide | api/cgol.py:42 | A code point of 256 or more is not truncated: more than 8 digits, full value kept. |
| Encoder.CharBitsHasOne | api/cgol.py:42 | Every character other than NUL has a '1' in its row. |
| Encoder.BitmaskShape | api/cgol.py:39-44 | More than 60 characters give no rows. Otherwise there is one row per character; for a code point below 256 the row is 8 binary digits whose value is that code point. |
| Encoder.ConvertToAsciiBitmask | api/cgol.py:39-44 | The loop returns `Bitmask(word)`: empty above 60 characters, else one row per character in order. |
| Encoder.EncoderExamples | tests/test_cgol.py:19-29 | "A" gives ["01000001"], "AB" gives ["01000001", "01000010"], "" gives []. |
| Seeder.InitialLiveCells | api/cgol.py:58-70 | Cell (r, c) is seeded iff r = (60 - L) // 2 + i and c = 16 + j for some '1' at row i, position j. |
| Seeder.GenerateInitialLiveCells | api/cgol.py:58-70 | The nested loops produce exactly the seed cells above, and no other cell. |
| Seeder.SeedOfNothing | api/cgol.py:62-70 | A list with no '1' digit (empty or all zeros) seeds the empty set. |
| Seeder.SeedInsideGrid | api/cgol.py:58-59 | With at most 60 rows of at most 8 digits, every seed lies in rows [0, 60) and columns 16..23. |
| Seeder.WordSeedInsideGrid | api/cgol.py:39-70 | A word whose code points are below 256 seeds only cells in rows [0, 60) and columns 16..23. |
| Seeder.SeedCellAt | api/cgol.py:62-68 | A '1' at row i, position j places the cell (start_row + i, 16 + j). |
| Seeder.WordSeedNonEmpty | api/cgol.py:39-70 | A word of 1 to 60 characters with a non-NUL character seeds at least one cell. |
| Seeder.SeederExamples | tests/test_cgol.py:44-73 | The seeding tests: ["00000001"], ["10000001", "01000010"], all zeros and [] give the expected cells. |
| StepEngine.ContinueLiving | api/cgol.py:109-113 | Survivors are exactly the live cells whose tally is 2 or 3; a subset of the live cells. |
| StepEngine.ComeToLife | api/cgol.py:127-131 | Births are exactly the non-live tallied cells with tally 3; disjoint from the live cells. |
| StepEngine.TallyRuleExamples | tests/test_cgol.py:99-162 | The survival and birth tests, each on its own tally and live set. |
| StepEngine.HitsPositive | api/cgol.py:85-87 | A cell's tally is positive iff some offset d has c - d live. |
| StepEngine.HitsAddCell | api/cgol.py:85-87 | A cell's tally is additive: one more live cell adds that cell's own contribution. |
| StepEngine.AddNeighbours | api/cgol.py:86-87 | The inner loop adds one to each of the eight cells around a live cell and changes no other count. |
| StepEngine.CountNeighbours | api/cgol.py:83-87 | The outer loop's tally has a key exactly for cells with a live neighbour, and its value is the number of live neighbours. |
| StepEngine.NeighbourTallyAt | api/cgol.py:83-87 | The same key-set and value facts for the tally as a map comprehension. |
| StepEngine.CandidatesPositive | api/cgol.py:83-87 | The keys of the tally are exactly the cells next to a live cell. |
| StepEngine.LiveNeighboursUnfold | api/cgol.py:16-25 | The tally of a cell is the count of its 8 surrounding cells that are live. |
| StepEngine.LifeRule | api/cgol.py:89-92 | A cell is in the next generation iff it is live with 2 or 3 live neighbours, or dead with exactly 3. |
| StepEngine.TallyStepIsLife | api/cgol.py:89-92 | Survivors united with births from the tally equal that cell-by-cell rule. |
| StepEngine.NextGeneration | api/cgol.py:73-93 | The step returns `Life(live)`: each cell follows the Game of Life rule. |
| StepEngine.LifeStaysNear | api/cgol.py:83-93 | Every cell of the next generation is one of the 8 neighbours of an old live cell. |
| StepEngine.EmptyStaysEmpty | tests/test_cgol.py:93-96 | The empty generation steps to the empty generation. |
| StepEngine.LoneCellDies | tests/test_cgol.py:88-91 | A lone cell dies. |
| StepEngine.BlockIsStill | tests/test_cgol.py:82-86 | The 2 x 2 block is a fixed point. |
| StepEngine.BlinkerOscillates | tests/test_cgol.py:76-80 | The vertical blinker steps to the horizontal one and back. |
| StepEngine.TrominoBecomesBlock | tests/test_cgol.py:182-187 | The L-tromino {(1,1),(1,2),(2,1)} steps to the block. |
| Renderer.RowText | api/cgol.py:148-152 | A row's text has one marker per column of the range: the live marker exactly where the cell is live. |
| Renderer.Grid | api/cgol.py:147-152 | One row text per row of the window, top to bottom; none when the range is empty. |
| Renderer.SplitJoin | api/cgol.py:153 | Joining newline-free lines with "\n" loses nothing: cutting the text at newlines gives the lines back. |
| Renderer.DisplayGrid | api/cgol.py:134-153 | The text is "" for an empty row range. Otherwise it is r1 - r0 lines, line i being the marker row of row r0 + i. |
| Renderer.DisplayBoard | api/cgol.py:134 | With the default window the text is 60 lines of 40 markers. |
| Renderer.DisplayExample | tests/test_cgol.py:165-168 | {(0,0),(0,1)} in window (0, 0, 1, 3) shows two live markers then a dead one. |
| History.Check | api/cgol.py:166-181 | An empty history records g and does not stop. Otherwise it stops iff g is empty or already recorded, keeping the history. When it goes on, g is appended and the length stays at most 10. |
| History.CheckRecords | api/cgol.py:176-181 | A check that does not stop leaves the newest ten of history + [g], oldest first. |
| History.NewestEntryTestRedundant | api/cgol.py:169-173 | The test against the newest entry adds nothing to the membership test. |
| History.WindowAppend | api/cgol.py:178-180 | Trimming to ten before or after appending gives the same window. |
| History.FeedWindow | api/cgol.py:176-181 | After a run of checks that did not stop, the history is the newest ten generations checked. |
| History.RecentRepeatStops | api/cgol.py:169-181 | After such a run, a repeat of any of the last ten generations stops the game (oscillation of period up to 10). |
| Game.Simulate | api/cgol.py:195-209 | The run as a value: generations stay between the start and max(start, cap). Its three branches (a check that goes on, a check that stops, the cap) are restated one by one as the proof steps `SimulateContinues`, `SimulateHalts` and `SimulateAtCap`. |
| Game.SimulateScore | api/cgol.py:204 | The score is the summed size of exactly the generations that were run. |
| Game.SimulateStops | api/cgol.py:200-203 | A run that ends before the cap ends on an empty or already recorded generation. |
| Game.SimulateHistoryBound | api/cgol.py:178-180 | The shared history never holds more than 10 generations. |
| Game.SimulateRanUnstopped | api/cgol.py:200-207 | Every generation a run scored passed the check in turn: checking the trajectory of the generations it ran never stops. |
| Game.SimulateIsFeed | api/cgol.py:166-207 | The history a run leaves is the history that checking the generations it ran, one after the other, leaves. |
| Game.RepeatIsRecorded | api/cgol.py:169-181 | If generation k + p repeats generation k with 1 <= p <= 10, checking the first k + p generations without a stop leaves a history on which generation k + p stops. |
| Game.RepeatInTrajectoryStops | api/cgol.py:169-181 | With such a repeat, checking any more than k + p generations of the trajectory stops. |
| Game.PeriodicStops | api/cgol.py:169-207 | Once generation k + p repeats generation k with 1 <= p <= 10, a run from any history of at most 10 entries ends within k + p generations, whatever the cap: still lifes and oscillators of period up to 10 end the game. |
| History.FeedAppend | api/cgol.py:166-181 | Checking s without a stop and then t is the same as checking s + t. |
| History.FeedStopsEarly | api/cgol.py:169-173 | A stop while checking s is still the stop when more generations follow. |
| Game.UncheckedReachesCap | tests/test_cgol.py:197-201 | With the check forced to False, a run reaches the cap and scores every generation. |
| Game.UncheckedRunOfA | tests/test_cgol.py:197-201 | With the check forced to False, "A" runs 10 generations and scores 2. |
| Game.UncheckedScorePositive | tests/test_cgol.py:208-212 | With the check forced to False, a word with a non-NUL character runs to the cap with a positive score. |
| Game.DistantPairDies | tests/test_cgol.py:201 | Two cells more than two columns apart (the cells of "A") both die in one step. |
| Game.SeedOfA | tests/test_cgol.py:201 | "A" seeds cells (29, 17) and (29, 23). |
| Game.CheckExamples | tests/test_cgol.py:171-187 | The first check does not stop; repeating the only entry stops; the tromino then the block does not stop. |
| Game.EmptySeedFreshRun | api/cgol.py:166-170 | On an empty history, an empty or over-long word runs 1 generation with score 0. |
| Game.EmptySeedAfterEarlierRun | tests/test_cgol.py:203-206 | On a non-empty history the same word runs 0 generations, the result that test expects. |
| Game.HistoryCarriesOver | api/cgol.py:15 | Two runs of "" on one history give 1 generation, then 0. |
| Game.PeriodTwoStops | api/cgol.py:169-171 | A period-two pattern on an empty history runs exactly 2 generations before the repeat stops it. |
| Game.BlinkerRun | api/cgol.py:195-209 | The blinker runs 2 generations with score 6 on an empty history. |
| Game.Cgol.constructor | api/cgol.py:15 | The history starts empty. |
| Game.Cgol.CheckEndConditions | api/cgol.py:156-181 | The check updates the shared history in place exactly as `Check` describes. |
| Game.Cgol.RunGame | api/cgol.py:184-209 | Encodes, seeds and plays, with the cap defaulting to 1000 (`DefaultGenerations`). The result and the new shared history are those of `Simulate` with `Life` from the old history, and 0 <= generations <= max(cap, 0). A history of at most 10 entries stays within 10. |
| Game.Cgol.Play | api/cgol.py:195-207 | The loop's counter, score and history are those of `Simulate` from the seed. |
| Game.NextGenerationAsStep | api/cgol.py:205 | The step used in the loop is `next_generation`. |
| Game.RunFresh | api/cgol.py:184-209 | A run on a history of its own depends only on the word and cap; an empty or over-long word then runs 1 generation, score 0. |

## Left out

- Characters other than '0' and '1' in `generate_initial_live_cells` (api/cgol.py:64): the model treats only `'1'` as live. In the source, `int(col)` returns 2 to 9 for the ASCII digits '2' to '9', so those cells stay dead, as in the model. `int` also accepts every Unicode decimal digit, so a digit one from another script (U+0661, U+FF11, ...) seeds a cell in the source but not in the model. Any character that is not a decimal digit makes `int` raise ValueError, which the model does not capture. The encoder only ever produces '0' and '1', so `RunGame` is unaffected.
- Lone surrogates U+D800 to U+DFFF: a Python string can hold them and `ord` gives 55296 to 57343, a 16-digit row. A Dafny `char` cannot hold them, so `ConvertToAsciiBitmask` and `RunGame` never receive a word containing one.
- The `__main__` print (api/cgol.py:212-213) and the first, overwritten value of `DEAD` (api/cgol.py:11).
- `api/main.py`, `ai_client/wrapper.py`, `wrapper/wrapper.py` and `api/static/script.js`: HTTP routing, templates, configuration and calls to an external language-model service, with no simulator logic of their own.
- Python set and dict iteration order: the model's sets and maps have no order, and no result of the source depends on it.
- The tests' `unittest.mock.patch` of `check_end_conditons` is modelled as `SimulateUnchecked`, a run whose check always answers False, not as a patched method.
- `Cgol.CheckEndConditions` states its effect only through `Check`; the properties of one check live on `History.Check`.
- The tally map holds integer counts rather than naturals; every count is proved equal to a number of live neighbours.

## Findings

| source | as written | input that shows it | evidently intended | confidence | as-written member | corrected member |
|---|---|---|---|---|---|---|
| api/cgol.py:15, 195-209 | `LIVE_CELL_HISTORY` is module state that `run_game` never clears, so one run's history decides the next run's first check | `run_game("")` twice in a fresh process: 1 generation, then 0 | each run starts with an empty history, so the result depends only on the word and the cap | not executed | Game.HistoryCarriesOver | Game.RunFresh |
