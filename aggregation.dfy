/** The result table `df_finalonset`: one row per retained breakpoint,
    first filled with the values at the breakpoint itself and then
    overwritten, row by row, with the values at the localised onset. */
module OnsetTable {
  import opened Outcomes
  import opened SensorFrame
  import opened OnsetLocaliser

  /** One row of the table: onset temperature in degrees Celsius and in
      kelvin, and the time of the onset in minutes. */
  datatype OnsetRow = OnsetRow(celsius: real, kelvin: real, minutes: real)

  /** Why a run stops before the table is complete. */
  datatype RunError =
    | MissingColumn(column: nat)
    | DetectorFailed
    | NoOnset(cause: LocaliseError)

  /** The unit conversions: tenths of a degree to degrees Celsius, Celsius to
      kelvin, seconds to minutes. Each conversion can be undone exactly. */
  function MakeRow(rawTenths: real, seconds: real): (row: OnsetRow)
    ensures row.celsius * TemperatureScale == rawTenths
    ensures row.kelvin - KelvinOffset == row.celsius
    ensures row.minutes * SecondsPerMinute == seconds
  {
    var c := rawTenths / TemperatureScale;
    OnsetRow(c, c + KelvinOffset, seconds / SecondsPerMinute)
  }

  /** The frame has the time column and temperature column `tcol`. */
  predicate Readable(f: Frame, tcol: nat) {
    f.Rectangular() && f.HasColumn(tcol) && f.HasColumn(TimeColumn)
  }

  /** Every breakpoint is a position of the series `df.iloc[1:, c]`. */
  predicate SeriesPositions(f: Frame, kept: seq<int>) {
    forall k | 0 <= k < |kept| :: 0 <= kept[k] && kept[k] + 1 < f.Rows()
  }

  /** The table before refinement: row `j` holds the temperature and time of
      series position `kept[j]`, which is frame row `kept[j] + 1`. */
  function PreliminaryRows(f: Frame, tcol: nat, kept: seq<int>): (rows: seq<OnsetRow>)
    requires Readable(f, tcol) && SeriesPositions(f, kept)
    ensures |rows| == |kept|
    ensures forall j | 0 <= j < |kept| ::
      rows[j] == MakeRow(f.cols[tcol][kept[j] + 1], f.cols[TimeColumn][kept[j] + 1])
  {
    var temperature := f.Series(tcol);
    var seconds := f.Series(TimeColumn);
    seq(|kept|, j requires 0 <= j < |kept| => MakeRow(temperature[kept[j]], seconds[kept[j]]))
  }

  /** Lines 171-182: collect the temperature and time of each retained
      breakpoint, derive the kelvin list, and build the table from them. */
  method TabulateOnsets(f: Frame, tcol: nat, kept: seq<int>) returns (table: array<OnsetRow>)
    requires Readable(f, tcol) && SeriesPositions(f, kept)
    ensures fresh(table)
    ensures table[..] == PreliminaryRows(f, tcol, kept)
  {
    var temperature := f.Series(tcol);
    var seconds := f.Series(TimeColumn);
    var onsetT: seq<real> := [];
    var onsetTime: seq<real> := [];
    for j := 0 to |kept|
      invariant |onsetT| == |onsetTime| == j
      invariant forall m | 0 <= m < j ::
        onsetT[m] == temperature[kept[m]] / TemperatureScale &&
        onsetTime[m] == seconds[kept[m]] / SecondsPerMinute
    {
      onsetT := onsetT + [temperature[kept[j]] / TemperatureScale];
      onsetTime := onsetTime + [seconds[kept[j]] / SecondsPerMinute];
    }
    var onsetK := seq(|onsetT|, m requires 0 <= m < |onsetT| => onsetT[m] + KelvinOffset);
    table := new OnsetRow[|kept|](m requires 0 <= m < |kept| => OnsetRow(onsetT[m], onsetK[m], onsetTime[m]));
  }

  /** The refined row for breakpoint `i`: localise the onset in column
      `tcol`, then read the temperature from column 4 (whatever `tcol` is)
      and the time from column 1, both at the onset row of the frame. */
  function RefineOne(f: Frame, tcol: nat, i: int, range: int): (r: Result<OnsetRow, RunError>)
    requires Readable(f, tcol)
    ensures r.Ok? <==> LocaliseOnset(f.cols[tcol], i, range).Ok? && f.HasColumn(RefinedTemperatureColumn)
    ensures LocaliseOnset(f.cols[tcol], i, range).Err? ==>
      r == Err(NoOnset(LocaliseOnset(f.cols[tcol], i, range).error))
    ensures LocaliseOnset(f.cols[tcol], i, range).Ok? && !f.HasColumn(RefinedTemperatureColumn) ==>
      r == Err(MissingColumn(RefinedTemperatureColumn))
  {
    match LocaliseOnset(f.cols[tcol], i, range)
    case Err(e) => Err(NoOnset(e))
    case Ok(onset) =>
      if !f.HasColumn(RefinedTemperatureColumn) then Err(MissingColumn(RefinedTemperatureColumn))
      else Ok(MakeRow(f.cols[RefinedTemperatureColumn][onset], f.cols[TimeColumn][onset]))
  }

  /** All values in order when every outcome succeeded, otherwise the
      error of the first outcome that failed: a loop over breakpoints that
      stops at the first exception. */
  function Collect<T, E>(outcomes: seq<Result<T, E>>): (r: Result<seq<T>, E>)
    ensures r.Ok? <==> forall j | 0 <= j < |outcomes| :: outcomes[j].Ok?
    ensures r.Ok? ==> |r.value| == |outcomes|
    ensures r.Ok? ==> forall j | 0 <= j < |outcomes| :: r.value[j] == outcomes[j].value
    decreases |outcomes|
  {
    if outcomes == [] then Ok([])
    else
      var n := |outcomes| - 1;
      assert forall j | 0 <= j < n :: outcomes[..n][j] == outcomes[j];
      match Collect(outcomes[..n])
      case Err(e) => Err(e)
      case Ok(values) =>
        match outcomes[n]
        case Err(e) => Err(e)
        case Ok(v) => Ok(values + [v])
  }

  /** The first failure decides the error: when every outcome before `l`
      succeeded and outcome `l` failed, the collection fails with the error
      of outcome `l`, whatever follows. */
  lemma {:induction false} FirstFailureDecides<T, E>(outcomes: seq<Result<T, E>>, l: nat)
    requires l < |outcomes|
    requires forall m | 0 <= m < l :: outcomes[m].Ok?
    requires outcomes[l].Err?
    ensures Collect(outcomes) == Err(outcomes[l].error)
    decreases |outcomes|
  {
    var n := |outcomes| - 1;
    if l < n {
      assert forall m | 0 <= m < n :: outcomes[..n][m] == outcomes[m];
      FirstFailureDecides(outcomes[..n], l);
    }
  }

  /** The row a refinement yields once the onset is located and column 4
      exists: the reading of column 4 and of the time column at the onset
      row, converted. */
  lemma RefinementAt(f: Frame, tcol: nat, kept: seq<int>, range: int, l: nat, onset: nat)
    requires Readable(f, tcol) && l < |kept|
    requires LocaliseOnset(f.cols[tcol], kept[l], range) == Ok(onset)
    requires f.HasColumn(RefinedTemperatureColumn)
    ensures onset < f.Rows()
    ensures Refinements(f, tcol, kept, range)[l] ==
      Ok(MakeRow(f.cols[RefinedTemperatureColumn][onset], f.cols[TimeColumn][onset]))
  {
  }

  /** A successful collection means every outcome in it succeeded. */
  lemma CollectOkEach<T, E>(outcomes: seq<Result<T, E>>, l: nat)
    requires l <= |outcomes| && Collect(outcomes[..l]).Ok?
    ensures forall m | 0 <= m < l :: outcomes[m].Ok?
  {
    assert forall m | 0 <= m < l :: outcomes[..l][m] == outcomes[m];
  }

  /** Collecting one more successful outcome appends its value. */
  lemma CollectExtend<T, E>(outcomes: seq<Result<T, E>>, l: nat, values: seq<T>)
    requires l < |outcomes| && outcomes[l].Ok?
    requires Collect(outcomes[..l]) == Ok(values)
    ensures Collect(outcomes[..l + 1]) == Ok(values + [outcomes[l].value])
  {
    assert outcomes[..l + 1][..l] == outcomes[..l];
  }

  /** The outcome of refining each breakpoint on its own. */
  function Refinements(f: Frame, tcol: nat, kept: seq<int>, range: int): (rs: seq<Result<OnsetRow, RunError>>)
    requires Readable(f, tcol)
    ensures |rs| == |kept|
    ensures forall j | 0 <= j < |kept| :: rs[j] == RefineOne(f, tcol, kept[j], range)
  {
    seq(|kept|, j requires 0 <= j < |kept| => RefineOne(f, tcol, kept[j], range))
  }

  /** The finished table: the rows of every breakpoint refined in order, or
      the error of the first breakpoint that cannot be refined. */
  function RefinedRows(f: Frame, tcol: nat, kept: seq<int>, range: int): (r: Result<seq<OnsetRow>, RunError>)
    requires Readable(f, tcol)
    ensures r.Ok? <==> forall j | 0 <= j < |kept| :: RefineOne(f, tcol, kept[j], range).Ok?
    ensures r.Ok? ==> |r.value| == |kept|
    ensures r.Ok? ==> forall j | 0 <= j < |kept| :: r.value[j] == RefineOne(f, tcol, kept[j], range).value
  {
    Collect(Refinements(f, tcol, kept, range))
  }

  /** Lines 188-198: for each breakpoint in turn, localise its onset, read
      the refined values (RefineOne) and overwrite row `l` of the table. The loop stops at the first breakpoint
      whose onset cannot be found (the Python code raises there), leaving the
      rows before it refined and the rest as they were. */
  method RefineInPlace(table: array<OnsetRow>, f: Frame, tcol: nat, kept: seq<int>, range: int)
    returns (l: nat, err: Option<RunError>)
    requires Readable(f, tcol) && table.Length == |kept|
    modifies table
    ensures l <= |kept|
    ensures Collect(Refinements(f, tcol, kept, range)[..l]) == Ok(table[..l])
    ensures forall m | l <= m < table.Length :: table[m] == old(table[m])
    ensures err.None? <==> l == |kept|
    ensures err.None? ==> RefinedRows(f, tcol, kept, range) == Ok(table[..])
    ensures err.Some? ==> RefinedRows(f, tcol, kept, range) == Err(err.value)
  {
    ghost var rs := Refinements(f, tcol, kept, range);
    l := 0;
    while l < |kept|
      invariant l <= |kept|
      invariant Collect(rs[..l]) == Ok(table[..l])
      invariant forall m | l <= m < table.Length :: table[m] == old(table[m])
    {
      CollectOkEach(rs, l);
      var outcome := RefineOne(f, tcol, kept[l], range);
      if outcome.Err? {
        err := Some(outcome.error);
        FirstFailureDecides(rs, l);
        return;
      }
      var row := outcome.value;
      ghost var done := table[..l];
      CollectExtend(rs, l, done);
      table[l] := row;
      assert table[..l + 1] == done + [row];
      l := l + 1;
    }
    err := None;
    assert rs[..l] == rs;
    assert table[..l] == table[..];
  }
}
