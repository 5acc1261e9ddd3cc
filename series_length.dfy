/** What loading a by-class time series produces, stated on values: the
    thresholds from the header line, the length checks, the truncation of a
    too-long series, the cyclic extension of a too-short one and the warnings
    raised on the way. */
module SeriesLength {
  import Cyclic

  /** One tokenised line of the table: the label cell, here called its name, and the
      numeric cells that follow it. */
  datatype Line = Line(name: string, cells: seq<real>)

  /** The advisory messages of a successful load. */
  datatype Warning =
    | ExceedingYearsIgnored(found: int, max: int)
    | LoopedOver(found: int, required: int)

  datatype WarningKind = Exceeding | Looping

  /** The length checks that abort a load. */
  datatype Failure =
    | TooFewSteps(found: int, min: int)
    | NotWholeYears(found: int)

  datatype Result<T> = Ok(value: T) | Err(failure: Failure)

  /** A loaded series: one threshold per class, one row per simulation step. */
  datatype Table = Table(classes: seq<real>, grid: seq<seq<real>>, warnings: seq<Warning>)

  function Min(a: int, b: int): int
  {
    if a < b then a else b
  }

  function KindOf(w: Warning): WarningKind
  {
    match w
    case ExceedingYearsIgnored(_, _) => Exceeding
    case LoopedOver(_, _) => Looping
  }

  /** How many warnings of the given kind ws holds. */
  function Count(ws: seq<Warning>, kind: WarningKind): nat
  {
    if ws == [] then 0
    else (if KindOf(ws[0]) == kind then 1 else 0) + Count(ws[1..], kind)
  }

  /** The series length passes both checks: at least nMin steps, whole years. */
  predicate Accepted(n: int, nMin: int, nStepYear: int)
    requires nStepYear >= 1
  {
    nMin <= n && n % nStepYear == 0
  }

  /** The number of body rows the grid takes from the file. */
  function Kept(n: int, nMax: int): int
  {
    Min(n, nMax)
  }

  /** An accepted series keeps between 1 and nStepSimu rows, and each kept row
      has a cell for every threshold. Below 1 the cyclic fill never ends,
      above nStepSimu the copy runs past the end of the grid, and a narrower
      row is read past its end. */
  predicate Reconcilable(lines: seq<Line>, nMin: int, nMax: int, nStepYear: int, nStepSimu: int)
    requires |lines| >= 1 && nStepYear >= 1
  {
    var n := |lines| - 1;
    Accepted(n, nMin, nStepYear) ==>
      && 1 <= Kept(n, nMax) <= nStepSimu
      && forall t :: 1 <= t <= Kept(n, nMax) ==> |lines[t].cells| >= |lines[0].cells|
  }

  /** Body row t (line t + 1) without its label, as wide as the header. */
  function Row(lines: seq<Line>, t: int): seq<real>
    requires 0 <= t && t + 1 < |lines| && |lines[t + 1].cells| >= |lines[0].cells|
  {
    lines[t + 1].cells[..|lines[0].cells|]
  }

  /** The first kept body rows, in file order. */
  function KeptRows(lines: seq<Line>, kept: nat): (rows: seq<seq<real>>)
    requires kept < |lines|
    requires forall t :: 1 <= t <= kept ==> |lines[t].cells| >= |lines[0].cells|
    ensures |rows| == kept
    ensures forall t :: 0 <= t < kept ==> rows[t] == Row(lines, t)
  {
    if kept == 0 then [] else KeptRows(lines, kept - 1) + [Row(lines, kept - 1)]
  }

  /** The outcome of loading lines for a simulation of nStepSimu steps. */
  function Load(lines: seq<Line>, nMin: int, nMax: int, nStepYear: int, nStepSimu: int): Result<Table>
    requires |lines| >= 1 && nStepYear >= 1
    requires Reconcilable(lines, nMin, nMax, nStepYear, nStepSimu)
  {
    var n := |lines| - 1;
    if n < nMin then Err(TooFewSteps(n, nMin))
    else if n % nStepYear != 0 then Err(NotWholeYears(n))
    else
      var kept := Kept(n, nMax);
      var exceeding := if n > nMax then [ExceedingYearsIgnored(n, nMax)] else [];
      var looping := if kept < nStepSimu then [LoopedOver(kept, nStepSimu)] else [];
      Ok(Table(lines[0].cells, Cyclic.Repeat(KeptRows(lines, kept), nStepSimu), exceeding + looping))
  }

  /** A load fails exactly when one of the two length checks fails; the
      minimum-length check is made first. */
  lemma LoadRejects(lines: seq<Line>, nMin: int, nMax: int, nStepYear: int, nStepSimu: int)
    requires |lines| >= 1 && nStepYear >= 1
    requires Reconcilable(lines, nMin, nMax, nStepYear, nStepSimu)
    ensures var n := |lines| - 1;
      && (Load(lines, nMin, nMax, nStepYear, nStepSimu).Err? <==> !Accepted(n, nMin, nStepYear))
      && (n < nMin ==> Load(lines, nMin, nMax, nStepYear, nStepSimu) == Err(TooFewSteps(n, nMin)))
      && (nMin <= n && n % nStepYear != 0 ==>
            Load(lines, nMin, nMax, nStepYear, nStepSimu) == Err(NotWholeYears(n)))
  {
  }

  /** After a successful load the grid has one row per simulation step, as wide
      as the threshold axis; its first kept rows are the body rows of the file
      without their labels, and every later row repeats the row t mod kept. */
  lemma LoadGrid(lines: seq<Line>, nMin: int, nMax: int, nStepYear: int, nStepSimu: int)
    requires |lines| >= 1 && nStepYear >= 1
    requires Reconcilable(lines, nMin, nMax, nStepYear, nStepSimu)
    requires Accepted(|lines| - 1, nMin, nStepYear)
    ensures var kept := Kept(|lines| - 1, nMax);
      var r := Load(lines, nMin, nMax, nStepYear, nStepSimu);
      && r.Ok?
      && r.value.classes == lines[0].cells
      && |r.value.grid| == nStepSimu
      && (forall t :: 0 <= t < nStepSimu ==> r.value.grid[t] == Row(lines, t % kept))
      && (forall t :: 0 <= t < kept ==> r.value.grid[t] == lines[t + 1].cells[..|lines[0].cells|])
      && (forall t :: 0 <= t < nStepSimu ==> |r.value.grid[t]| == |lines[0].cells|)
  {
    var kept := Kept(|lines| - 1, nMax);
    var rows := KeptRows(lines, kept);
    var grid := Load(lines, nMin, nMax, nStepYear, nStepSimu).value.grid;
    forall t | 0 <= t < nStepSimu
      ensures grid[t] == Row(lines, t % kept)
    {
      Cyclic.RepeatAt(rows, nStepSimu, t);
    }
    forall t | 0 <= t < kept
      ensures grid[t] == Row(lines, t)
    {
      Cyclic.ModOfDecomposition(t, kept, 0, t);
    }
  }

  /** After a successful load the grid repeats with period kept. */
  lemma LoadGridCyclic(lines: seq<Line>, nMin: int, nMax: int, nStepYear: int, nStepSimu: int, t: int)
    requires |lines| >= 1 && nStepYear >= 1
    requires Reconcilable(lines, nMin, nMax, nStepYear, nStepSimu)
    requires Accepted(|lines| - 1, nMin, nStepYear)
    requires Kept(|lines| - 1, nMax) <= t < nStepSimu
    ensures var kept := Kept(|lines| - 1, nMax);
      var grid := Load(lines, nMin, nMax, nStepYear, nStepSimu).value.grid;
      grid[t] == grid[t % kept] == grid[t - kept]
  {
    var kept := Kept(|lines| - 1, nMax);
    LoadGrid(lines, nMin, nMax, nStepYear, nStepSimu);
    var q, r := (t - kept) / kept, (t - kept) % kept;
    assert t == kept * (q + 1) + r;
    Cyclic.ModOfDecomposition(t, kept, q + 1, r);
    Cyclic.ModOfDecomposition(t % kept, kept, 0, t % kept);
  }

  /** A successful load warns once that excess years are ignored exactly when
      the file is longer than nMax, and once that it loops over the series
      exactly when fewer rows than simulation steps are kept; nothing else. */
  lemma LoadWarnings(lines: seq<Line>, nMin: int, nMax: int, nStepYear: int, nStepSimu: int)
    requires |lines| >= 1 && nStepYear >= 1
    requires Reconcilable(lines, nMin, nMax, nStepYear, nStepSimu)
    requires Accepted(|lines| - 1, nMin, nStepYear)
    ensures var n := |lines| - 1;
      var ws := Load(lines, nMin, nMax, nStepYear, nStepSimu).value.warnings;
      && Count(ws, Exceeding) == (if n > nMax then 1 else 0)
      && Count(ws, Looping) == (if Kept(n, nMax) < nStepSimu then 1 else 0)
      && |ws| == Count(ws, Exceeding) + Count(ws, Looping)
      && (|ws| == 2 ==> KindOf(ws[0]) == Exceeding)
  {
    var n := |lines| - 1;
    var kept := Kept(n, nMax);
    var exceeding: seq<Warning> := if n > nMax then [ExceedingYearsIgnored(n, nMax)] else [];
    var looping: seq<Warning> := if kept < nStepSimu then [LoopedOver(kept, nStepSimu)] else [];
    CountConcat(exceeding, looping, Exceeding);
    CountConcat(exceeding, looping, Looping);
  }

  /** Counting over a concatenation adds the counts of its parts; no warning
      has two kinds, so the two counts add up to the length. */
  lemma {:induction false} CountConcat(a: seq<Warning>, b: seq<Warning>, kind: WarningKind)
    ensures Count(a + b, kind) == Count(a, kind) + Count(b, kind)
    ensures Count(a, Exceeding) + Count(a, Looping) == |a|
  {
    if a != [] {
      assert (a + b)[1..] == a[1..] + b;
      CountConcat(a[1..], b, kind);
    } else {
      assert a + b == b;
    }
  }

  /** A file with exactly nStepSimu body rows loads unchanged, without warnings. */
  lemma ExactFit(lines: seq<Line>, nMin: int, nMax: int, nStepYear: int, nStepSimu: int)
    requires |lines| >= 1 && nStepYear >= 1
    requires Reconcilable(lines, nMin, nMax, nStepYear, nStepSimu)
    requires Accepted(|lines| - 1, nMin, nStepYear)
    requires |lines| - 1 == nStepSimu <= nMax
    ensures Load(lines, nMin, nMax, nStepYear, nStepSimu)
      == Ok(Table(lines[0].cells, KeptRows(lines, nStepSimu), []))
  {
    var rows := KeptRows(lines, nStepSimu);
    assert Kept(nStepSimu, nMax) == nStepSimu;
    assert rows[..nStepSimu] == rows;
    assert Cyclic.Repeat(rows, nStepSimu) == rows;
    var r := Load(lines, nMin, nMax, nStepYear, nStepSimu);
    assert r.Ok?;
    assert r.value.grid == rows;
    assert r.value.warnings == [];
  }

  /** A file longer than nMax = nStepSimu loads as its first nStepSimu rows,
      with the single warning that the excess years are ignored. */
  lemma Truncation(lines: seq<Line>, nMin: int, nStepYear: int, nStepSimu: int)
    requires |lines| >= 1 && nStepYear >= 1
    requires Reconcilable(lines, nMin, nStepSimu, nStepYear, nStepSimu)
    requires Accepted(|lines| - 1, nMin, nStepYear)
    requires |lines| - 1 > nStepSimu
    ensures Load(lines, nMin, nStepSimu, nStepYear, nStepSimu)
      == Ok(Table(lines[0].cells, KeptRows(lines, nStepSimu),
                  [ExceedingYearsIgnored(|lines| - 1, nStepSimu)]))
  {
    var rows := KeptRows(lines, nStepSimu);
    assert Kept(|lines| - 1, nStepSimu) == nStepSimu;
    assert rows[..nStepSimu] == rows;
    assert Cyclic.Repeat(rows, nStepSimu) == rows;
    var r := Load(lines, nMin, nStepSimu, nStepYear, nStepSimu);
    assert r.Ok?;
    assert r.value.grid == rows;
    assert r.value.warnings == [ExceedingYearsIgnored(|lines| - 1, nStepSimu)];
  }

  /** With the bounds of the one-argument read (at least one year, at most the
      simulation length) every accepted file keeps between one row and
      nStepSimu rows, so that read neither overruns the grid nor loops forever. */
  lemma DefaultBoundsFit(n: int, nStepYear: int, nYear: int)
    requires n >= 0 && nStepYear >= 1 && nYear >= 1
    requires Accepted(n, nStepYear, nStepYear)
    ensures 1 <= Kept(n, nStepYear * nYear) <= nStepYear * nYear
  {
    assert nStepYear * nYear >= nStepYear * 1;
  }

  /** The value looked up at a step and bin is the file's cell in that bin, on
      the body row that the step wraps to. */
  lemma LookupFromFile(lines: seq<Line>, nMin: int, nMax: int, nStepYear: int, nStepSimu: int,
                       step: int, bin: int)
    requires |lines| >= 1 && nStepYear >= 1
    requires Reconcilable(lines, nMin, nMax, nStepYear, nStepSimu)
    requires Accepted(|lines| - 1, nMin, nStepYear)
    requires 0 <= step < nStepSimu && 0 <= bin < |lines[0].cells|
    ensures var kept := Kept(|lines| - 1, nMax);
      var grid := Load(lines, nMin, nMax, nStepYear, nStepSimu).value.grid;
      && step < |grid| && bin < |grid[step]|
      && 0 <= step % kept < |lines| - 1 && bin < |lines[step % kept + 1].cells|
      && grid[step][bin] == lines[step % kept + 1].cells[bin]
  {
    LoadGrid(lines, nMin, nMax, nStepYear, nStepSimu);
  }
}
