# PyOnsetT onset-extraction core, modelled in Dafny

PyOnsetT reads a sensor log from a gas-hydrate dissociation experiment. The log holds elapsed time, pressure and temperature columns. The program finds abrupt pressure drops with a change-point detector and keeps the drops whose pressure lies in a band. For each drop it finds the onset sample: the row just before the steepest rise of the temperature inside a window around the drop. It reports the onset temperature in degrees Celsius and in kelvin, and the onset time in minutes. It also draws a 3x3 grid of zoomed views, one per event.

This project models the core of `main()` in `PyOnsetT/PyOnsetT.py`:

- `SensorFrame` (`frame.dfy`) models the table pandas reads. It is addressed by position, with a default RangeIndex. It also holds the fixed column schema: time in column 1, pressure sensor `p` in column `p + 1`, temperature sensor `t` in column `t + 3`, and the refined temperature always in column 4. `Series` is `df.iloc[1:, c]`, so series position `i` is frame row `i + 1`.
- `ChangePoints` (`changepoints.dfy`) says what the detector returns: ascending, positive breakpoints that end with the series length. It drops that terminal breakpoint.
- `BandFilter` (`bandfilter.dfy`) is the pressure-band list comprehension.
- `OnsetLocaliser` (`localiser.dfy`) is `df.iloc[i-R:i+R, c].diff().idxmax() - 1`. It uses Python's slice rules, the signed maximum of the first difference, and the first maximum on a tie.
- `OnsetTable` (`aggregation.dfy`) models the result table. A loop first fills it with the values at each breakpoint. A second loop then overwrites each row in place with the values at the localised onset. It stops at the first breakpoint whose onset cannot be found.
- `ZoomGrid` (`grid.dfy`) models the cell allocation of the 3x3 grid of zoomed views and the deletion of unused cells.
- `Pipeline` (`pipeline.dfy`) composes these steps. `OnsetPipeline` is the specification as a value. `ExtractOnsets` is the same steps run as the program runs them.

The model keeps these behaviours of the code:

- The localiser's window is not clamped at row 0. A negative slice start counts from the end of the frame. For a breakpoint closer than the half-width to the start of a long frame, the window is empty and the run aborts (`NegativeStartWraps`, `EarlyBreakpointAborts`). The upper end is truncated (`InBoundsWindow`).
- The refined temperature is read from column 4 for every temperature sensor. Only the onset search uses column `tnum + 3`.
- The localiser slices the frame with the series index `i`, which is frame row `i + 1`. So the window is centred one row before the breakpoint's own sample.
- A half-width of zero or less is accepted. It gives an empty window whenever `i + R >= 0` (`NonPositiveRangeFails`).
- The sensor numbers are used as given. A column that does not exist is an error when it is first read.
- With zero events no grid cell is deleted. With more than nine events, drawing the tenth raises IndexError.

The detector (ruptures' PELT, penalty 1400) is an input to the model. `None` stands for the library raising, for example on a series that is too short. A list it returns must satisfy `IsDetectorOutput`.

## Model

| member | source | states |
|---|---|---|
| `ChangePoints.DropTerminal` | PyOnsetT/PyOnsetT.py:144 | `result[:-1]` is a prefix of the detector output and one element shorter; an empty list stays empty |
| `ChangePoints.AscendingBelowLast` | PyOnsetT/PyOnsetT.py:142-143 | in an ascending breakpoint list every element before the last is smaller than the last |
| `ChangePoints.DropTerminalIsInterior` | PyOnsetT/PyOnsetT.py:142-144 | after the drop every breakpoint is a position of the series (positive, below N), the list is still ascending, and the terminal index N is gone |
| `SensorFrame.PressureColumn` | PyOnsetT/PyOnsetT.py:109 | pressure sensor `pnum` is column `pnum + 1`: for sensors 1 and 2 that is neither the time column nor a temperature column |
| `SensorFrame.TemperatureColumn` | PyOnsetT/PyOnsetT.py:110 | temperature sensor `tnum` is column `tnum + 3`, after both pressure columns; it is column 4, where the refined temperature is read, only for sensor 1 |
| `SensorFrame.Frame.Series` | PyOnsetT/PyOnsetT.py:109-111 | `df.iloc[1:, c]` has one row fewer than the frame, and its position `i` is frame row `i + 1` |
| `BandFilter.FilterBand` | PyOnsetT/PyOnsetT.py:151 | an index is kept if and only if it is a candidate whose pressure lies in `[pinit, pfinal]`; the result is an order-preserving subsequence of the candidates |
| `BandFilter.NothingInBand` | PyOnsetT/PyOnsetT.py:151 | a band that holds no candidate's pressure gives the empty list, not an error |
| `BandFilter.FilterIdempotent` | PyOnsetT/PyOnsetT.py:151 | filtering twice with the same band equals filtering once |
| `BandFilter.FilterNested` | PyOnsetT/PyOnsetT.py:151 | filtering with a wide band and then a narrower one equals filtering with the narrower one |
| `BandFilter.WideningKeepsIndices` | PyOnsetT/PyOnsetT.py:151 | widening the band never removes an index: the narrow result is a subsequence of the wide one and no longer |
| `OnsetLocaliser.SliceEnd` | PyOnsetT/PyOnsetT.py:190 | a resolved slice end always lies within the frame |
| `OnsetLocaliser.PySlice` | PyOnsetT/PyOnsetT.py:190 | the rows a slice selects form a window inside the frame that starts at the resolved start; it ends at the resolved stop, or is empty when the stop resolves at or before the start |
| `OnsetLocaliser.Rise` | PyOnsetT/PyOnsetT.py:190 | `diff()` at a row is the signed rise from the previous row: positive exactly when the temperature goes up, negative exactly when it goes down |
| `OnsetLocaliser.SearchWindow` | PyOnsetT/PyOnsetT.py:190 | the window searched around breakpoint `i` lies inside the frame |
| `OnsetLocaliser.FirstMaxRise` | PyOnsetT/PyOnsetT.py:190 | `idxmax` of the window's differences: a position after the window's first row whose rise is the largest, with every earlier position rising strictly less |
| `OnsetLocaliser.FirstMaxRiseUnique` | PyOnsetT/PyOnsetT.py:190 | any position that is maximal with every earlier one strictly smaller is exactly the one the scan returns |
| `OnsetLocaliser.LocaliseOnset` | PyOnsetT/PyOnsetT.py:190 | the onset exists if and only if the window has at least two rows; it then lies in `[lo, hi - 2]`; otherwise the error names the breakpoint and the window |
| `OnsetLocaliser.OnsetIsBeforeFirstMaxRise` | PyOnsetT/PyOnsetT.py:190 | the row after the onset is the first maximum of the signed first difference within the window |
| `OnsetLocaliser.InBoundsWindow` | PyOnsetT/PyOnsetT.py:190 | with a start inside the frame the window is `[i - R, min(i + R, len))`: the upper end is truncated |
| `OnsetLocaliser.NegativeStartWraps` | PyOnsetT/PyOnsetT.py:190 | for `0 <= i < R` and a frame of at least `2R` rows the start wraps to `len + i - R`, the window is empty and localisation fails |
| `OnsetLocaliser.NonPositiveRangeFails` | PyOnsetT/PyOnsetT.py:190 | with `R <= 0` and `i + R >= 0` the window is empty and localisation fails |
| `OnsetTable.MakeRow` | PyOnsetT/PyOnsetT.py:194-196 | Celsius times 10 gives back the raw reading, kelvin minus 273.15 gives back Celsius, minutes times 60 gives back the seconds |
| `OnsetTable.PreliminaryRows` | PyOnsetT/PyOnsetT.py:171-182 | one row per retained breakpoint in order; row `j` holds the selected temperature and the time of frame row `kept[j] + 1`, converted |
| `OnsetTable.TabulateOnsets` | PyOnsetT/PyOnsetT.py:167-182 | the loop that appends to `onsetT` and `onsetT_time`, followed by the kelvin list and the table, yields exactly the preliminary rows |
| `OnsetTable.RefineOne` | PyOnsetT/PyOnsetT.py:190-196 | refining a breakpoint succeeds if and only if its onset is found and column 4 exists; a missing onset and a missing column 4 give their own errors |
| `OnsetTable.RefinementAt` | PyOnsetT/PyOnsetT.py:191-196 | a refined row is read at the onset row of the unshifted frame, from column 4 and the time column |
| `OnsetTable.Collect` | PyOnsetT/PyOnsetT.py:188-198 | the loop succeeds if and only if every breakpoint refines; it then has one row per breakpoint, in order |
| `OnsetTable.FirstFailureDecides` | PyOnsetT/PyOnsetT.py:188-198 | the first breakpoint that fails decides the error, whatever follows it |
| `OnsetTable.CollectOkEach` | PyOnsetT/PyOnsetT.py:188-198 | a refined prefix means every breakpoint in it refined |
| `OnsetTable.CollectExtend` | PyOnsetT/PyOnsetT.py:188-198 | refining one more breakpoint appends its row |
| `OnsetTable.Refinements` | PyOnsetT/PyOnsetT.py:188-190 | there is one refinement outcome per retained breakpoint, in order, each the outcome of `RefineOne` for that breakpoint |
| `OnsetTable.RefinedRows` | PyOnsetT/PyOnsetT.py:188-198 | the finished table exists if and only if every retained breakpoint refines; it then has one row per breakpoint, row `j` being breakpoint `j`'s refined row |
| `OnsetTable.RefineInPlace` | PyOnsetT/PyOnsetT.py:188-198 | counter `l` rows are overwritten with their refined values and the rest are untouched; the run ends with the whole refined table, or with the first failure's error |
| `ZoomGrid.CellOf` | PyOnsetT/PyOnsetT.py:210 | `(k // 3, k % 3)` gives back `k` as `3 * row + col`, and lies in the 3x3 grid for `k < 9` |
| `ZoomGrid.DrawnCells` | PyOnsetT/PyOnsetT.py:207-210 | one cell per event, at most nine |
| `ZoomGrid.RemovedCells` | PyOnsetT/PyOnsetT.py:224-226 | for 1 to 9 events, `9 - events` cells are deleted; none for zero events or an overflow (which cells they are is stated by `DrawnOrRemoved` and `GridPartition`) |
| `ZoomGrid.CellOfBijective` | PyOnsetT/PyOnsetT.py:210 | `(k // 3, k % 3)` for `k < 9` lies in the grid, and distinct events get distinct cells |
| `ZoomGrid.CellOfOnto` | PyOnsetT/PyOnsetT.py:204 | every cell of the 3x3 grid is the cell of some `k < 9` |
| `ZoomGrid.DrawnNotRemoved` | PyOnsetT/PyOnsetT.py:224-226 | no drawn cell is deleted |
| `ZoomGrid.DrawnOrRemoved` | PyOnsetT/PyOnsetT.py:204-226 | a cell is in the grid if and only if it is drawn or deleted |
| `ZoomGrid.GridPartition` | PyOnsetT/PyOnsetT.py:204-226 | for 1 to 9 events the drawn cells are distinct, and drawn and deleted cells partition the nine cells |
| `ZoomGrid.LayoutGrid` | PyOnsetT/PyOnsetT.py:207-230 | the loop draws the cells of `DrawnCells`, deletes those of `RemovedCells`, and overflows exactly when there are more than nine events |
| `Pipeline.RetainedBreakpoints` | PyOnsetT/PyOnsetT.py:142-151 | a retained index is an interior breakpoint whose pressure at frame row `i + 1` is in the band; the retained list keeps the detector's order |
| `Pipeline.OnsetPipeline` | PyOnsetT/PyOnsetT.py:108-198 | a run succeeds only if the columns exist and the detector returned; the table then has one row per retained breakpoint |
| `Pipeline.RunSucceedsIff` | PyOnsetT/PyOnsetT.py:188-198 | with the columns present and the detector's breakpoints given, a run succeeds if and only if every retained breakpoint's window yields an onset and column 4 exists |
| `Pipeline.SuccessfulRun` | PyOnsetT/PyOnsetT.py:188-198 | row `j` of a successful run is read at the onset localised in column `tnum + 3` around `kept[j]`: Celsius from column 4, kelvin equal to Celsius plus 273.15, minutes from column 1 |
| `Pipeline.NoEventsGivesEmptyTable` | PyOnsetT/PyOnsetT.py:151-198 | when no interior breakpoint lies in the band, the run yields an empty table, not an error |
| `Pipeline.EarlyBreakpointAborts` | PyOnsetT/PyOnsetT.py:188-198 | a retained breakpoint closer than `R` to the start of a frame of at least `2R` rows makes the whole run fail |
| `Pipeline.ExtractOnsets` | PyOnsetT/PyOnsetT.py:108-198 | the imperative run (column lookup, drop, filter, tabulate, refine in place) returns exactly what `OnsetPipeline` specifies |

## Left out

- Argument parsing, the banner, printing and `time.sleep` (lines 17-63, 147, 176, 191, 250-255) are user interface only.
- File discovery, the file-number prompt, the y/n confirmation and `exit()` (lines 70-106) are terminal I/O.
- Reading the CSV (cp949 encoding, `header=1`) and converting with `astype(float)` (lines 97, 113-117) are not modelled. The frame's cells are given as exact `real` numbers. NaN cells and non-numeric cells are not modelled.
- The PELT change-point detector (lines 142-143) is foreign code. It is a parameter: either the breakpoint list it returns or its failure.
- Binary floating point and `round(..., 2)` (lines 194-196) are not modelled. The conversions use exact real arithmetic, and rounding is display only.
- All matplotlib drawing, axis labels and limits (lines 120-133, 153-164, 185, 210-221, 228-232) are rendering. Only the grid-cell arithmetic is modelled.
- `ZoomGrid.LayoutGrid`: does not model the axis-limit lookups `df.iloc[onsetT_index ± R, …]` at lines 215-216. They raise IndexError when `onsetT_index + R` reaches the frame's length or `onsetT_index - R` lies below minus that length.
- `Pipeline.OnsetPipeline`: an `Ok` result is the table written at line 201. It does not account for the IndexErrors raised later, at line 210 for a tenth event or at lines 215-216. Each of these stops the run after the CSV is written and before the folder and zip steps at lines 234-247.
- The second computation of the onset index at line 209 is identical to line 190 and is not repeated in the model.
- Writing the CSV, creating the folder, moving files, zipping and removing the folder (lines 201, 234-247) are filesystem side effects.
- Sensor numbers are natural numbers. A negative `--pnum`/`--tnum`, which pandas would resolve to a column counted from the end, is not modelled.
- `idxmax` on a window of exactly one row: depending on the pandas version this raises or returns NaN, which the next `iloc` then rejects. The model treats both as the same localisation failure.
- `setup.py` is packaging metadata and holds no logic.
