# ByClassTimeSeries: a verified model

OSMOSE's `ByClassTimeSeries` is a lookup table loaded once from a CSV file and
then only read. It holds a value for each simulation time step and each class,
where a class is an age bin or a size bin. The header line of the file gives
the class thresholds. Each body line gives one time step's value per class.
Loading reconciles the file's length with the simulation's length, as follows.
- A series shorter than `nMin` steps is rejected.
- A series that is not a whole number of years is rejected.
- A series longer than `nMax` steps is cut to its first `nMax` rows, with a warning.
- A series shorter than the simulation is repeated cyclically from its start,
  with a warning.

A lookup maps a school's age or size to its bin with the ordered thresholds.
It then reads the grid at the requested step and bin.

The model has four modules.
- `ClassBins` specifies `classOf` as pure functions over the threshold sequence.
- `Cyclic` defines the cyclic extension of a series and the modulo lemma it rests on.
- `SeriesLength` states the outcome of a load on values (`Load`). It proves the
  rejection, truncation, exact-fit, cyclic-extension and warning properties
  about that function.
- `TimeSeries` holds the class `ByClassTimeSeries`. Its fields `classes` and
  `values` are arrays, as in the Java class. `Read` copies rows into a freshly
  allocated grid and then fills it cyclically in place, with a nested
  `while`/`for` loop and an early `break`. It is proved against `Load`. Rows
  after the kept part are the same arrays as the kept rows, as in the source.

The input is the file already split into lines. Each `Line` has its label cell
(`name`) and its numeric cells. `nStepYear` and `nYear` are parameters rather
than values read from the configuration. Fatal errors and warnings are
returned as values.

## Model

| member | source | states |
|---|---|---|
| ClassBins.ScanFrom | java/src/fr/ird/osmose/util/timeseries/ByClassTimeSeries.java:158-165 | the scan from k on returns an index in range. That index is the first interval at or after k holding the value, or the last index when none does. |
| ClassBins.BinOf | java/src/fr/ird/osmose/util/timeseries/ByClassTimeSeries.java:153-166 | -1 exactly when the value is below the first threshold. Otherwise the result is an index in `[0, length-1]` whose threshold is at most the value. That index is the first k with `c[k] <= v < c[k+1]`, or the last index with every threshold at most the value. |
| ClassBins.BinOfUnique | java/src/fr/ird/osmose/util/timeseries/ByClassTimeSeries.java:153-166 | at or above the first threshold, the bin found contains the value. Over non-decreasing thresholds it is the only bin that does. |
| ClassBins.BoundaryExamples | java/src/fr/ird/osmose/util/timeseries/ByClassTimeSeries.java:153-166 | the boundary cases for thresholds 2, 5, 9: below the first threshold, on each threshold, just under each threshold, and far above the last. |
| Cyclic.Repeat | java/src/fr/ird/osmose/util/timeseries/ByClassTimeSeries.java:133-145 | the cyclic extension of a non-empty series has exactly the requested length. |
| Cyclic.RepeatAt | java/src/fr/ird/osmose/util/timeseries/ByClassTimeSeries.java:136-145 | entry t of the cyclic extension is entry `t mod n` of the series. |
| SeriesLength.KeptRows | java/src/fr/ird/osmose/util/timeseries/ByClassTimeSeries.java:125-131 | the kept rows are the first `kept` body rows, in file order, each without its label and as wide as the header. |
| SeriesLength.LoadRejects | java/src/fr/ird/osmose/util/timeseries/ByClassTimeSeries.java:111-117 | a load fails exactly when one length check fails. Too few steps is reported before the not-whole-years check. |
| SeriesLength.LoadGrid | java/src/fr/ird/osmose/util/timeseries/ByClassTimeSeries.java:104-145 | after a successful load the thresholds are the header cells in file order. The grid has `nStepSimu` rows, each as wide as the header. Its first kept rows are the body rows without labels, and row t is body row `t mod kept`. |
| SeriesLength.LoadGridCyclic | java/src/fr/ird/osmose/util/timeseries/ByClassTimeSeries.java:133-145 | past the kept rows the grid repeats with period kept: `grid[t] == grid[t mod kept] == grid[t - kept]`. |
| SeriesLength.LoadWarnings | java/src/fr/ird/osmose/util/timeseries/ByClassTimeSeries.java:118-146 | a successful load warns once about ignored years exactly when `n > nMax`, and once about looping exactly when `min(n, nMax) < nStepSimu`. There are no other warnings, and the exceeding warning comes first. |
| SeriesLength.ExactFit | java/src/fr/ird/osmose/util/timeseries/ByClassTimeSeries.java:121-133 | a file with exactly `nStepSimu` body rows (and `nMax >= nStepSimu`) loads as its body rows unchanged, with no warning. |
| SeriesLength.Truncation | java/src/fr/ird/osmose/util/timeseries/ByClassTimeSeries.java:118-131 | a file longer than `nMax = nStepSimu` loads as its first `nStepSimu` rows, with exactly the one ignored-years warning. |
| SeriesLength.DefaultBoundsFit | java/src/fr/ird/osmose/util/timeseries/ByClassTimeSeries.java:88-92 | with the one-argument bounds, an accepted file keeps between 1 and `nStepSimu` rows. So the default read neither overruns the grid nor loops forever. |
| SeriesLength.LookupFromFile | java/src/fr/ird/osmose/util/timeseries/ByClassTimeSeries.java:168-170 | the value at a step and bin of a loaded grid is the file's cell in that bin, on the body row the step wraps to. |
| TimeSeries.ByClassTimeSeries.constructor | java/src/fr/ird/osmose/util/timeseries/ByClassTimeSeries.java:84-86 | a new series has neither thresholds nor values. |
| TimeSeries.ByClassTimeSeries.Read | java/src/fr/ird/osmose/util/timeseries/ByClassTimeSeries.java:94-151 | the thresholds are a fresh array holding the header cells, even when the load fails. A failure returns the same failure as `Load` and leaves `values` unchanged. On success `values` is a fresh array of `nStepSimu` rows with the contents of `Load`'s grid, and the warnings are `Load`'s. The kept rows are fresh arrays, and each later row is the same array as row `t mod kept`. No row is the threshold array, and two steps share a row array exactly when they are congruent modulo kept, so the kept rows are distinct arrays. |
| TimeSeries.ByClassTimeSeries.ReadDefault | java/src/fr/ird/osmose/util/timeseries/ByClassTimeSeries.java:88-92 | the one-argument read is `Read` with `nMin = nStepYear` and `nMax = nStepSimu`. Those bounds always satisfy `Read`'s precondition, and the method has the same outcome and new state as `Read`. |
| TimeSeries.ByClassTimeSeries.ClassOf | java/src/fr/ird/osmose/util/timeseries/ByClassTimeSeries.java:153-166 | the loop with early returns computes `BinOf` of the thresholds. |
| TimeSeries.ByClassTimeSeries.GetValue | java/src/fr/ird/osmose/util/timeseries/ByClassTimeSeries.java:168-170 | at or above the first threshold the bin is a valid column, and the value is the grid cell at the step in `BinOf`'s bin. Nothing changes. |
| TimeSeries.ByClassTimeSeries.GetNClass | java/src/fr/ird/osmose/util/timeseries/ByClassTimeSeries.java:172-174 | the number of classes is the number of thresholds. |
| TimeSeries.ByClassTimeSeries.GetClass | java/src/fr/ird/osmose/util/timeseries/ByClassTimeSeries.java:176-178 | class k's threshold is entry k of the threshold array. |
| TimeSeries.ByClassTimeSeries.GetClasses | java/src/fr/ird/osmose/util/timeseries/ByClassTimeSeries.java:180-182 | the threshold array itself is returned, not a copy. |
| TimeSeries.ByClassTimeSeries.GetValues | java/src/fr/ird/osmose/util/timeseries/ByClassTimeSeries.java:184-186 | the value grid itself is returned, not a copy. |
| TimeSeries.CopyKeptRows | java/src/fr/ird/osmose/util/timeseries/ByClassTimeSeries.java:124-131 | grid rows `0 .. kept-1` become fresh arrays, pairwise distinct, holding the body rows without labels. The rest of the grid is unchanged. |
| TimeSeries.BuildGrid | java/src/fr/ird/osmose/util/timeseries/ByClassTimeSeries.java:124-145 | the grid has `nStepSimu` rows. Every row is a new array holding body row `t mod kept` without its label, and two steps share a row array exactly when they are congruent modulo kept. |
| TimeSeries.SharedRows | java/src/fr/ird/osmose/util/timeseries/ByClassTimeSeries.java:125-145 | when the kept rows are distinct arrays and every row is row `t mod kept`, two steps share a row array exactly when they are congruent modulo kept. |
| TimeSeries.FillCyclically | java/src/fr/ird/osmose/util/timeseries/ByClassTimeSeries.java:132-145 | the first kept rows are unchanged, and every later entry is the same row as entry `t mod kept`. The loop terminates because `kept > 0`. |

The one-argument `read` passes `nMin = nStepYear` (one year of steps) and
`nMax = nStepSimu` (ByClassTimeSeries.java:88-92). The grid always has
`nStepSimu` rows, whatever `nMax` is (ByClassTimeSeries.java:124, :133).

## Left out

- File and CSV reading (`CSVReader`, `FileReader`, `readAll`) and delimiter guessing (`Separator.guess`): they are I/O and a helper that is not part of this model. The model starts from the tokenised lines.
- Number parsing with `Float.valueOf` and `Double.valueOf`, and its `NumberFormatException`: this is library parsing. Cells arrive as numbers.
- IEEE float and double semantics (NaN, rounding, float thresholds against double values): thresholds are only compared and values only copied, so both are `real`.
- `SimulationLinker`, `getConfiguration()`, and the logger calls `warning`/`error` with the file name: these are global state and logging. `nStepYear` and `nYear` are parameters, and failures and warnings are returned as values without the file name.
- What `getSimulation().error` does after a failed load (whether the simulation stops) is not part of this model; `Read` returns the failure.
- TimeSeries.ByClassTimeSeries.Read: the unchecked exceptions of the source are preconditions, not outcomes. These are a file with no header line, a kept body row narrower than the header, `min(n, nMax) > nStepSimu` (the copy loop writes past the grid), and `min(n, nMax) < 1` with `n` accepted (the fill loop never ends).
- TimeSeries.ByClassTimeSeries.ReadDefault: requires a header line and kept body rows at least as wide as the header, as `Read` does.
- TimeSeries.ByClassTimeSeries.ClassOf: requires at least one threshold, where the source throws on `classes[0]`, and a loaded axis, where the source throws on a null array.
- TimeSeries.ByClassTimeSeries.GetValue: requires a loaded series, a step in range and a school at or above the first threshold. Otherwise the source indexes out of range (step outside the grid, or column -1) or dereferences null.
- TimeSeries.ByClassTimeSeries.GetNClass: requires thresholds to have been read; the source throws on a null array.
- TimeSeries.ByClassTimeSeries.GetClass: requires thresholds to have been read and k in range; the source throws otherwise.
- Java `int` overflow of `nStepYear * nYear` is not modelled: integers are unbounded.
