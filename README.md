# Minimum edit distance, modelled and verified in Dafny

This project models the `MinimumEditDistance` class of `MinimumEditDistance.py` and its helper `Direction.get_char`. The class holds a source string `x`, a target string `y` and three integer costs: substitution, deletion and insertion. Its constructor does two things:

- it fills a `(len(x)+1) × (len(y)+1)` weighted Levenshtein distance table;
- it derives from that table a direction table with three flags per cell. The flags are Left (insertion), Up (deletion) and UpLeft (match or substitution).

Three operations then walk the flags backwards from `(len(x), len(y))` to `(0, 0)`. The tie-break order is Left, then Up, then UpLeft. One operation returns the glyph of every step taken. One returns Insert, Delete or Replace records. The third replays the glyphs on the field `x`, rebuilding the target one edit at a time, and yields every intermediate string.

Modules:

- `Directions`: the `Direction` enumeration, its values 1, 2, 3, and `get_char`.
- `EditDistance`: the computation as functions. `Dist` is the table the code fills. `LeftFlag`, `UpFlag` and `UpLeftFlag` are the flags it sets. The module also holds the lemmas about them.
- `Backtrack`: the backward walk as functions. `Choose` picks the step at a cell and `Walk` is the whole walk. `Glyphs` and `Records` give the two outputs of the walk. `Apply` and `ReplaySteps` perform the replay. The module also holds the lemmas about the walk and the replay.
- `MinimumEditDistanceModel`: the class itself, written imperatively.
  - The distance matrix is an `array2<int>`.
  - The direction matrix is an `array3<int>`. Slot `value - 1` holds the direction's value, or 0.
  - Each method has the loops of the Python code and the same cursor updates. Each method is proved against the functions above.
  - The two walks read a cell's three slots in the helper `FirstFlag`, which returns the first non-zero one. The loops then branch on that value. Their last branch is a plain `else` instead of the code's `elif dir_ul != 0`; `StepAt` proves that the UpLeft slot is non-zero whenever that branch is reached.
  - A ghost constant `source` keeps the string the tables were built from, because the replay overwrites the field `x`.

Details of the code the model keeps:

- The boundary cells hold the plain indices: `d[i][0] == i` and `d[0][j] == j`, whatever the deletion and insertion costs.
  - The upper bound therefore is `d[m][n] <= m + n*ins` (go down column 0, then along row m).
  - With `del = 0`, `x = "a"` and `y = ""`, the distance is 1.
- Column 0 carries Up and row 0 carries Left, so `(0, 0)` carries both.
- The UpLeft flag tests `d[i-1][j-1] == d[i][j]` or `d[i-1][j-1] + sub == d[i][j]`. It uses the raw substitution cost, not the match-aware cost.
- For a string against itself, with `sub >= 0`, `del > 0` and `ins > 0`:
  - the distance is 0;
  - the instruction list is a run of `Replace c with c` records, one per character.

  Other costs can give other walks. For example, `x = y = "a"` with `del = -5` gives `d[1][1] == -4` and the walk Up, Left.
- The walk's loop has no branch for a cell with no flag set; such a cell would make it loop forever. `EditDistance.SomeFlagSet` shows there is no such cell, so the walk always ends at the origin.
- The table holds the minimum edit cost, counting every boundary step as 1. No step sequence from `(i, j)` to the origin costs less than `d[i][j]`, and the walk costs exactly `d[m][n]`.

## Model

| member | source | states |
|---|---|---|
| Directions.GlyphIdentifiesDirection | MinimumEditDistance.py:11-20 | `get_char` gives a distinct non-empty glyph to each of the three values, and `""` to every other integer |
| Directions.DecodeGlyph | MinimumEditDistance.py:137-145 | The replay's glyph test ('↖', then '←', otherwise Up) recovers the direction of every glyph that `get_char` emits |
| Directions.AtSlot | MinimumEditDistance.py:63-84 | Slot k of a cell belongs to the direction whose value is k + 1 |
| Directions.Direction.Value | MinimumEditDistance.py:6-9 | The enumeration values: Left is 1, Up is 2 and UpLeft is 3, each within 1..3 |
| Directions.Decode | MinimumEditDistance.py:137-145 | The replay's glyph tests: '↖' is UpLeft, then '←' is Left, and anything else is Up (delete). Its round trip is `Directions.DecodeGlyph` |
| Directions.GetChar | MinimumEditDistance.py:11-20 | `get_char` on a value. Its properties are in `Directions.GlyphIdentifiesDirection` and `Directions.DecodeGlyph` |
| EditDistance.Dist | MinimumEditDistance.py:44-58 | The table the code fills: `i` and `j` on the boundary, and the `min` of the three terms inside. Its properties are in `DistIsMinimumOfTerms`, `DistNonNegative`, `DistToSelfIsZero`, `DistUpperBound`, `DistCostSwap` and `Backtrack.DistIsMinimumPathCost` |
| EditDistance.LeftFlag | MinimumEditDistance.py:68-80 | The Left flag: set on row 0, clear on the rest of column 0, and inside set iff `d[i][j-1] + ins == d[i][j]`. Used by `SomeFlagSet`, `FlagInvariant` and `Backtrack.WalkTieBreak` |
| EditDistance.UpFlag | MinimumEditDistance.py:64-77 | The Up flag: set on column 0, clear on the rest of row 0, and inside set iff `d[i-1][j] + del == d[i][j]`. Used by the same lemmas |
| EditDistance.UpLeftFlag | MinimumEditDistance.py:81-84 | The UpLeft flag: clear on the boundary, and inside set iff `d[i-1][j-1] == d[i][j]` or `d[i-1][j-1] + sub == d[i][j]`. Used by the same lemmas |
| EditDistance.MatchCost | MinimumEditDistance.py:52-54 | The local `sub_cost`: 0 when `x[i-1] == y[j-1]`, the substitution cost otherwise. Used in `Dist`, `DistIsMinimumOfTerms` and `WalkStepIsOptimal` |
| EditDistance.FlagValue | MinimumEditDistance.py:64-84 | What slot k of cell (i, j) holds: the value of direction k + 1 when its flag is set, else 0. `CalculateDirection` fills every slot with it, and `CellFlags` restates it per slot |
| EditDistance.Min3 | MinimumEditDistance.py:55-58 | `min` of three terms is at most each term and equals one of them |
| EditDistance.DistIsMinimumOfTerms | MinimumEditDistance.py:50-58 | An interior cell is at most each recurrence term, where the diagonal term costs 0 on a character match and `sub` otherwise, and it equals one of the terms |
| EditDistance.SomeFlagSet | MinimumEditDistance.py:63-84 | Every cell other than (0, 0) carries at least one flag |
| EditDistance.DistNonNegative | MinimumEditDistance.py:44-58 | With non-negative costs no cell is negative |
| EditDistance.DistToSelfIsZero | MinimumEditDistance.py:44-58 | With non-negative costs, a string against itself has diagonal cells equal to 0, so its distance is 0 |
| EditDistance.DistUpperBound | MinimumEditDistance.py:44-58 | `d[i][j] <= i + j*ins`, the cost of going down column 0 and then along row i |
| EditDistance.DistCostSwap | MinimumEditDistance.py:44-58 | Swapping source and target, together with the deletion and insertion costs, transposes the table |
| Backtrack.Next | MinimumEditDistance.py:94-103 | Every step keeps both cursors non-negative and strictly decreases i + j |
| Backtrack.Choose | MinimumEditDistance.py:94-103 | The step chosen at a cell other than (0, 0) is one the cursors allow |
| Backtrack.WalkTieBreak | MinimumEditDistance.py:90-103 | The first step from a cell is Left iff Left is set; Up iff Left is clear and Up is set; UpLeft iff both are clear and UpLeft is set |
| Backtrack.WalkStepIsOptimal | MinimumEditDistance.py:72-103 | At an interior cell, the recurrence term of the step taken equals the cell's value, including `d[i][j] == d[i-1][j-1] + c` for UpLeft |
| Backtrack.WalkMoves | MinimumEditDistance.py:90-103 | The walk stays inside the table, and it is empty exactly when it starts at (0, 0) |
| Backtrack.WalkEndsAtOrigin | MinimumEditDistance.py:90-103 | The walk's last cell is (0, 0), and no earlier cell is |
| Backtrack.WalkCounts | MinimumEditDistance.py:86-105 | #Left + #UpLeft == n and #Up + #UpLeft == m |
| Backtrack.WalkLength | MinimumEditDistance.py:86-105 | #Left − #Up == n − m, and max(m, n) <= length <= m + n |
| Backtrack.DistIsMinimumPathCost | MinimumEditDistance.py:39-58 | Every step sequence from (i, j) that ends at (0, 0) costs at least `d[i][j]`, so the table holds the minimum edit cost |
| Backtrack.WalkReaches | MinimumEditDistance.py:90-103 | The walk from (i, j) is a step sequence that ends at (0, 0) |
| Backtrack.WalkIsCheapestPath | MinimumEditDistance.py:86-105 | No step sequence from (m, n) to (0, 0) costs less than the walk |
| Backtrack.WalkCostIsDistance | MinimumEditDistance.py:72-103 | The summed step costs of the walk equal `d[m][n]`. An interior step costs its recurrence term and a boundary step costs 1 |
| Backtrack.RecordsMirrorWalk | MinimumEditDistance.py:107-129 | The records have the walk's length, and at each position the record's kind and glyph are those of the raw step |
| Backtrack.DiagonalChoosesUpLeft | MinimumEditDistance.py:72-103 | With positive deletion and insertion costs, a string against itself steps UpLeft from every diagonal cell |
| Backtrack.EqualStringsGiveReplaceRecords | MinimumEditDistance.py:107-129 | Equal strings give `i` UpLeft steps and the records `Replace c with c`, from the last character down to the first |
| Backtrack.ReplaySteps | MinimumEditDistance.py:131-147 | The replay yields one string per step |
| Backtrack.ReplayInvariant | MinimumEditDistance.py:136-147 | After each step at cursor (i, j), the string is `x0[:i] + y[j:]` |
| Backtrack.ReplayReachesTarget | MinimumEditDistance.py:131-147 | The last snapshot of a replay from the source is the target |
| Backtrack.InsertOnlyExample | MinimumEditDistance.py:107-129 | "" to "abc" walks three Left steps and inserts c, b, a |
| Backtrack.DeleteOnlyExample | MinimumEditDistance.py:107-129 | "abc" to "" walks three Up steps and deletes c, b, a |
| Backtrack.Walk | MinimumEditDistance.py:86-105 | The walk: the chosen step, followed by the walk from the next cell. Its properties are in `WalkTieBreak`, `WalkMoves`, `WalkEndsAtOrigin`, `WalkCounts`, `WalkLength`, `WalkCostIsDistance` and `WalkIsCheapestPath` |
| Backtrack.Glyphs | MinimumEditDistance.py:94-103 | The glyph of each step, in walk order, one per step. `GetInstructionsRaw` returns it for the whole walk |
| Backtrack.Record | MinimumEditDistance.py:115-127 | The record of one step at cursor (i, j): Left inserts `y[j-1]`, Up deletes `x[i-1]`, and UpLeft replaces `x[i-1]` with `y[j-1]` |
| Backtrack.Records | MinimumEditDistance.py:107-129 | The record of each step, in walk order. Its properties are in `RecordsMirrorWalk` and `EqualStringsGiveReplaceRecords` |
| Backtrack.Take | MinimumEditDistance.py:138-145 | Python's `s[:k]` for `k >= 0`, clamped to the whole string |
| Backtrack.Drop | MinimumEditDistance.py:138-145 | Python's `s[k:]` for `k >= 0`, empty once `k` passes the end |
| Backtrack.Apply | MinimumEditDistance.py:137-145 | The slicing of each replay branch. Its effect is stated by `ReplayInvariant` and `ReplayReachesTarget` |
| Backtrack.TieExample | MinimumEditDistance.py:86-147 | "ab" to "ba" with substitution cost 5 walks Left, UpLeft, Up. Its records are Insert a, Replace b with b, Delete a, and its replay is "aba", "aba", "ba" |
| MinimumEditDistanceModel.MinimumEditDistance.constructor | MinimumEditDistance.py:24-37 | Stores the strings and costs, the default costs are 2, 1 and 1, both matrices are freshly allocated, and both are filled |
| MinimumEditDistanceModel.MinimumEditDistance.CalculateDistance | MinimumEditDistance.py:39-58 | After the three loops, every cell of the distance matrix equals `Dist` |
| MinimumEditDistanceModel.MinimumEditDistance.SetDistance | MinimumEditDistance.py:52-58 | One interior step: from three finished neighbours, cell (i, j) receives its `Dist` value, and no other cell changes |
| MinimumEditDistanceModel.MinimumEditDistance.TableRecurrence | MinimumEditDistance.py:44-58 | In matrix terms: `d[i][0] == i` and `d[0][j] == j` whatever the costs, and each interior cell is the `min` of its three terms |
| MinimumEditDistanceModel.MinimumEditDistance.GetMinDist | MinimumEditDistance.py:60-61 | Returns the distance of the whole source to the whole target |
| MinimumEditDistanceModel.MinimumEditDistance.CalculateDirection | MinimumEditDistance.py:63-84 | After the four loops, every slot holds its flag's value when the flag is set and 0 otherwise |
| MinimumEditDistanceModel.MinimumEditDistance.SetFlags | MinimumEditDistance.py:74-84 | One interior step: cell (i, j) receives exactly the flags whose term reaches its value, and no other cell changes |
| MinimumEditDistanceModel.MinimumEditDistance.FlagInvariant | MinimumEditDistance.py:63-84 | Column 0 carries Up and row 0 carries Left. At an interior cell, Up is set iff `d[i-1][j] + del == d[i][j]`, Left iff `d[i][j-1] + ins == d[i][j]`, and UpLeft iff `d[i-1][j-1] == d[i][j]` or `d[i-1][j-1] + sub == d[i][j]` |
| MinimumEditDistanceModel.MinimumEditDistance.CellFlags | MinimumEditDistance.py:72-84 | Each of a cell's three slots, in terms of the flag functions |
| MinimumEditDistanceModel.MinimumEditDistance.StepAt | MinimumEditDistance.py:91-103 | At a cell other than (0, 0), the first non-zero slot in the order Left, Up, UpLeft exists, and it is the chosen step |
| MinimumEditDistanceModel.MinimumEditDistance.FirstFlag | MinimumEditDistance.py:91-103 | The three slot reads and the if/elif chain return the value of the chosen step |
| MinimumEditDistanceModel.MinimumEditDistance.GetInstructionsRaw | MinimumEditDistance.py:86-105 | The loop terminates and returns the glyphs of the whole walk from (m, n) to (0, 0) |
| MinimumEditDistanceModel.MinimumEditDistance.GetInstructions | MinimumEditDistance.py:107-129 | The loop terminates and returns the records of the whole walk. Insert names `y[j-1]`, Delete names `x[i-1]`, and Replace names `x[i-1]` and `y[j-1]` |
| MinimumEditDistanceModel.MinimumEditDistance.ReplayStep | MinimumEditDistance.py:137-146 | One replay step rewrites the field `x` with the slicing of its glyph's branch and moves the cursors one step |
| MinimumEditDistanceModel.MinimumEditDistance.PrintStepByStep | MinimumEditDistance.py:131-147 | Yields the current `x` followed by one snapshot per glyph. The field `x` ends as the last snapshot, and a replay from the source leaves `x == y` |

## Left out

- App.py is not part of this model. It is a console driver that only builds the object and prints its results.
- numpy storage: the matrices hold exact `int`s, and float rounding is not modelled. The Python float matrices hold the same values only while every entry and every sum formed stays within ±2^53. Beyond that, the code's equality tests can set flags the model does not. For example, `x = "a"` and `y = "b"` with all three costs `2**53` make `1.0 + 2**53` round to `2**53`. Integer costs are unbounded and need not be non-negative. The lemmas that need non-negative or positive costs say so in their `requires`.
- Generator laziness: `print_step_by_step` is modelled as a method that returns the whole list of snapshots, and it performs every update of `x` before returning.
- Presentation: `get_instructions` builds f-strings such as `"↖ : Replace a with b"`. The model returns an `Instruction` value carrying the same kind and characters. The glyph of a record is its kind's glyph.
- MinimumEditDistanceModel.MinimumEditDistance.GetInstructions: requires `|x| >= len(source)`. That is exactly the condition under which Python's `self.x[i - 1]` cannot raise `IndexError`, because every walk makes an Up or UpLeft step at each `i` from `m` down to 1. A call after a replay that shortened `x` raises in Python and is not modelled. When `x` has changed but is still long enough, the records name the characters of the current `x`, exactly as the code does.
- EditDistance.DistUpperBound: requires `i > 0`, `j == 0` or `ins >= 1`. On row 0 the cell is `j`, which exceeds `j*ins` when `j > 0` and `ins < 1`.
- A cell with no flag would make the walk loop forever. `EditDistance.SomeFlagSet` shows that there is no such cell.
