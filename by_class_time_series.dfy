/** A value indexed by simulation time step and by class (an age or a size
    bin), loaded once from a tokenised table and afterwards only read. */
module TimeSeries {
  import opened SeriesLength
  import Cyclic
  import ClassBins

  class ByClassTimeSeries {
    /** One threshold per class, in file order; null until a read. */
    var classes: array?<real>
    /** One row per simulation step, each row one value per class; null until
        a successful read. Rows past the kept part of the file are the kept
        rows themselves (the same arrays), not copies. */
    var values: array?<array?<real>>

    constructor ()
      ensures classes == null && values == null
    {
      classes := null;
      values := null;
    }

    /** Both fields are set and every step has a row as wide as the axis. */
    ghost predicate Loaded()
      reads this, values
    {
      && classes != null
      && values != null
      && forall t :: 0 <= t < values.Length ==> values[t] != null && values[t].Length == classes.Length
    }

    /** Loads the thresholds from the header line and the values from the body
        lines for a simulation of nStepYear * nYear steps, accepting at least
        nMin body rows and keeping at most nMax of them. The thresholds are
        stored before the length checks; a rejected series leaves values as it
        was. */
    method Read(lines: seq<Line>, nMin: int, nMax: int, nStepYear: int, nYear: int)
      returns (outcome: Result<seq<Warning>>)
      requires |lines| >= 1 && nStepYear >= 1 && nYear >= 1
      requires Reconcilable(lines, nMin, nMax, nStepYear, nStepYear * nYear)
      modifies this
      ensures classes != null && fresh(classes) && classes[..] == lines[0].cells
      ensures var load := Load(lines, nMin, nMax, nStepYear, nStepYear * nYear);
        && (load.Err? ==> outcome == Err(load.failure) && values == old(values))
        && (load.Ok? ==> outcome == Ok(load.value.warnings))
      ensures var load := Load(lines, nMin, nMax, nStepYear, nStepYear * nYear);
        var kept := Kept(|lines| - 1, nMax);
        load.Ok? ==>
          && Loaded() && fresh(values) && values.Length == nStepYear * nYear
          && (forall t :: 0 <= t < values.Length ==> values[t][..] == load.value.grid[t])
          && (forall t :: 0 <= t < kept ==> fresh(values[t]))
          && (forall t :: kept <= t < values.Length ==> values[t] == values[t % kept])
          && (forall t :: 0 <= t < values.Length ==> values[t] != classes)
          && (forall i, j :: 0 <= i < values.Length && 0 <= j < values.Length ==>
                (values[i] == values[j] <==> i % kept == j % kept))
    {
      var n := |lines| - 1;
      var nStepSimu := nStepYear * nYear;
      var header := lines[0].cells;
      var nClass := |header|;
      var axis := new real[nClass];
      classes := axis;
      for k := 0 to nClass
        invariant axis[..k] == header[..k]
        modifies axis
      {
        axis[k] := header[k];
      }
      assert axis[..] == header;

      if n < nMin {
        return Err(TooFewSteps(n, nMin));
      }
      if n % nStepYear != 0 {
        return Err(NotWholeYears(n));
      }
      var warnings: seq<Warning> := [];
      if n > nMax {
        warnings := warnings + [ExceedingYearsIgnored(n, nMax)];
      }
      var kept := Min(n, nMax);
      ghost var exceeding := warnings;

      var grid := BuildGrid(lines, kept, nStepSimu);
      values := grid;
      if kept < nStepSimu {
        warnings := warnings + [LoopedOver(kept, nStepSimu)];
      }

      LoadGrid(lines, nMin, nMax, nStepYear, nStepSimu);
      ghost var load := Load(lines, nMin, nMax, nStepYear, nStepSimu).value;
      assert load.warnings == exceeding + (if kept < nStepSimu then [LoopedOver(kept, nStepSimu)] else []);
      assert warnings == load.warnings;
      assert forall t :: 0 <= t < nStepSimu ==> grid[t][..] == load.grid[t];
      return Ok(warnings);
    }

    /** The one-argument read: at least one year of steps, at most the whole
        simulation. */
    method ReadDefault(lines: seq<Line>, nStepYear: int, nYear: int)
      returns (outcome: Result<seq<Warning>>)
      requires |lines| >= 1 && nStepYear >= 1 && nYear >= 1
      requires Accepted(|lines| - 1, nStepYear, nStepYear) ==>
        forall t :: 1 <= t <= Kept(|lines| - 1, nStepYear * nYear) ==> |lines[t].cells| >= |lines[0].cells|
      modifies this
      ensures Reconcilable(lines, nStepYear, nStepYear * nYear, nStepYear, nStepYear * nYear)
      ensures classes != null && fresh(classes) && classes[..] == lines[0].cells
      ensures var load := Load(lines, nStepYear, nStepYear * nYear, nStepYear, nStepYear * nYear);
        && (load.Err? ==> outcome == Err(load.failure) && values == old(values))
        && (load.Ok? ==> outcome == Ok(load.value.warnings))
      ensures var load := Load(lines, nStepYear, nStepYear * nYear, nStepYear, nStepYear * nYear);
        var kept := Kept(|lines| - 1, nStepYear * nYear);
        load.Ok? ==>
          && Loaded() && fresh(values) && values.Length == nStepYear * nYear
          && (forall t :: 0 <= t < values.Length ==> values[t][..] == load.value.grid[t])
          && (forall t :: 0 <= t < kept ==> fresh(values[t]))
          && (forall t :: kept <= t < values.Length ==> values[t] == values[t % kept])
          && (forall t :: 0 <= t < values.Length ==> values[t] != classes)
          && (forall i, j :: 0 <= i < values.Length && 0 <= j < values.Length ==>
                (values[i] == values[j] <==> i % kept == j % kept))
    {
      var nStepSimu := nStepYear * nYear;
      if Accepted(|lines| - 1, nStepYear, nStepYear) {
        DefaultBoundsFit(|lines| - 1, nStepYear, nYear);
      }
      outcome := Read(lines, nStepYear, nStepSimu, nStepYear, nYear);
    }

    /** classOf: the bin of school, scanning the thresholds in order. */
    method ClassOf(school: real) returns (k: int)
      requires classes != null && classes.Length >= 1
      ensures k == ClassBins.BinOf(classes[..], school)
    {
      if school < classes[0] {
        return -1;
      }
      for j := 0 to classes.Length - 1
        invariant forall i :: 0 <= i < j ==> !ClassBins.InBin(classes[..], i, school)
      {
        if classes[j] <= school && school < classes[j + 1] {
          return j;
        }
      }
      return classes.Length - 1;
    }

    /** getValue: the value at a time step in the bin of school. Below the
        first threshold the source indexes the row with -1; here that is
        excluded by the precondition. */
    method GetValue(step: int, school: real) returns (v: real)
      requires Loaded() && classes.Length >= 1
      requires 0 <= step < values.Length && classes[0] <= school
      ensures 0 <= ClassBins.BinOf(classes[..], school) < values[step].Length
      ensures v == values[step][ClassBins.BinOf(classes[..], school)]
    {
      var k := ClassOf(school);
      v := values[step][k];
    }

    /** getNClass: the number of classes, one per threshold. */
    function GetNClass(): (n: int)
      reads this
      requires classes != null
      ensures n == classes.Length
    {
      classes.Length
    }

    /** getClass: the threshold of class k. */
    function GetClass(k: int): (c: real)
      reads this, classes
      requires classes != null && 0 <= k < classes.Length
      ensures c == classes[k]
    {
      classes[k]
    }

    /** getClasses: the threshold array itself, not a copy. */
    function GetClasses(): (a: array?<real>)
      reads this
      ensures a == classes
    {
      classes
    }

    /** getValues: the value grid itself, not a copy. */
    function GetValues(): (g: array?<array?<real>>)
      reads this
      ensures g == values
    {
      values
    }
  }

  /** Allocates the grid of nStepSimu rows, copies the kept rows into it and
      fills the rest cyclically. Every row is a new array; two steps share a
      row exactly when they are congruent modulo kept. */
  method BuildGrid(lines: seq<Line>, kept: int, nStepSimu: int) returns (grid: array<array?<real>>)
    requires 0 < kept <= nStepSimu && kept < |lines|
    requires forall t :: 1 <= t <= kept ==> |lines[t].cells| >= |lines[0].cells|
    ensures fresh(grid) && grid.Length == nStepSimu
    ensures forall t :: 0 <= t < nStepSimu ==>
      grid[t] != null && fresh(grid[t]) && grid[t][..] == Row(lines, t % kept)
    ensures forall t :: kept <= t < nStepSimu ==> grid[t] == grid[t % kept]
    ensures forall i, j :: 0 <= i < nStepSimu && 0 <= j < nStepSimu ==>
      (grid[i] == grid[j] <==> i % kept == j % kept)
  {
    grid := new array?<real>[nStepSimu];
    CopyKeptRows(grid, lines, kept);
    label copied:
    if kept < nStepSimu {
      FillCyclically(grid, kept);
    }
    assert forall t :: 0 <= t < kept ==> grid[t] == old@copied(grid[t]) by {
      if kept < nStepSimu {
        assert grid[..kept] == old@copied(grid[..kept]);
      }
    }
    forall t | 0 <= t < nStepSimu
      ensures grid[t] == grid[t % kept]
    {
      if t < kept {
        Cyclic.ModOfDecomposition(t, kept, 0, t);
      }
    }
    SharedRows(grid, kept);
  }

  /** Copies the kept rows: rows 0 .. kept - 1 of grid become new arrays, one
      per row, holding the first kept body rows without their labels. */
  method CopyKeptRows(grid: array<array?<real>>, lines: seq<Line>, kept: int)
    requires 0 <= kept <= grid.Length && kept < |lines|
    requires forall t :: 1 <= t <= kept ==> |lines[t].cells| >= |lines[0].cells|
    modifies grid
    ensures forall j :: 0 <= j < kept ==>
      grid[j] != null && fresh(grid[j]) && grid[j][..] == Row(lines, j)
    ensures forall i, j :: 0 <= i < j < kept ==> grid[i] != grid[j]
    ensures grid[kept..] == old(grid[kept..])
  {
    var nClass := |lines[0].cells|;
    for t := 0 to kept
      invariant forall j :: 0 <= j < t ==>
        grid[j] != null && fresh(grid[j]) && grid[j][..] == Row(lines, j)
      invariant forall i, j :: 0 <= i < j < t ==> grid[i] != grid[j]
      invariant grid[kept..] == old(grid[kept..])
    {
      var row := new real[nClass];
      grid[t] := row;
      var fval := lines[t + 1].cells;
      for k := 0 to nClass
        invariant row[..k] == fval[..k]
        modifies row
      {
        row[k] := fval[k];
      }
      assert row[..] == Row(lines, t);
    }
  }

  /** Fills the rest of grid cyclically: it repeats the first kept rows, in
      order, from the start; each later entry is the same row array as the
      entry t mod kept. */
  method FillCyclically(grid: array<array?<real>>, kept: int)
    requires 0 < kept < grid.Length
    modifies grid
    ensures grid[..kept] == old(grid[..kept])
    ensures forall j :: kept <= j < grid.Length ==> grid[j] == grid[j % kept]
  {
    var nStepSimu := grid.Length;
    ghost var cycles := 1;
    var t := kept;
    while t < nStepSimu
      invariant kept <= t <= nStepSimu
      invariant t < nStepSimu ==> t == kept * cycles
      invariant grid[..kept] == old(grid[..kept])
      invariant forall j :: kept <= j < t ==> grid[j] == grid[j % kept]
      decreases nStepSimu - t
    {
      ghost var start := t;
      for k := 0 to kept
        invariant t == start + k < nStepSimu
        invariant grid[..kept] == old(grid[..kept])
        invariant forall j :: kept <= j < t ==> grid[j] == grid[j % kept]
      {
        Cyclic.ModOfDecomposition(t, kept, cycles, k);
        grid[t] := grid[k];
        t := t + 1;
        if t == nStepSimu {
          break;
        }
      }
      cycles := cycles + 1;
    }
  }

  /** In a grid whose first kept rows are distinct arrays and whose every row
      is the row t mod kept, two steps share a row array exactly when they are
      congruent modulo kept. */
  lemma SharedRows(grid: array<array?<real>>, kept: int)
    requires 0 < kept <= grid.Length
    requires forall t :: 0 <= t < grid.Length ==> grid[t] == grid[t % kept]
    requires forall i, j :: 0 <= i < j < kept ==> grid[i] != grid[j]
    ensures forall i, j :: 0 <= i < grid.Length && 0 <= j < grid.Length ==>
      (grid[i] == grid[j] <==> i % kept == j % kept)
  {
  }
}
