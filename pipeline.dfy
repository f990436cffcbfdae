/** The onset-extraction core of `main()`: select the columns, post-process
    the detector's breakpoints, keep those in the pressure band, tabulate
    them, and refine every row at its localised onset. */
module Pipeline {
  import opened Outcomes
  import opened SensorFrame
  import opened ChangePoints
  import opened BandFilter
  import opened OnsetLocaliser
  import opened OnsetTable

  /** The command-line options that reach the core: `--pnum`, `--tnum`,
      `--range`, `--pinit` and `--pfinal`. */
  datatype Config = Config(pressureSensor: nat, temperatureSensor: nat, range: int, pinit: int, pfinal: int)

  /** Number of samples in the series `df.iloc[1:, c]`. */
  function SeriesLength(f: Frame): nat {
    if f.Rows() == 0 then 0 else f.Rows() - 1
  }

  /** What the program needs of the detector: when it returns, it returns a
      valid breakpoint list for the pressure series. */
  predicate DetectorContract(f: Frame, detected: Option<seq<int>>) {
    detected.Some? ==> IsDetectorOutput(detected.value, SeriesLength(f))
  }

  /** The breakpoints that reach the table: the detector's output without
      its terminal index, filtered by the pressure of series position `i`,
      which is frame row `i + 1`. */
  function RetainedBreakpoints(f: Frame, cfg: Config, bkps: seq<int>): (kept: seq<int>)
    requires f.Rectangular() && f.HasColumn(PressureColumn(cfg.pressureSensor))
    requires IsDetectorOutput(bkps, SeriesLength(f))
    ensures SeriesPositions(f, kept)
    ensures SubsequenceOf(kept, DropTerminal(bkps))
    ensures forall x :: x in kept <==>
      x in DropTerminal(bkps) && 0 <= x < SeriesLength(f) &&
      InBand(f.cols[PressureColumn(cfg.pressureSensor)][x + 1], cfg.pinit, cfg.pfinal)
  {
    var pressure := f.Series(PressureColumn(cfg.pressureSensor));
    DropTerminalIsInterior(bkps, SeriesLength(f));
    FilterBand(DropTerminal(bkps), pressure, cfg.pinit, cfg.pfinal)
  }

  /** The whole core as one value: the first error raised before the table
      is written (line 201), or the table that is written. Columns are looked
      up in the order of lines 109-111; the detector runs only when they all
      exist. */
  function OnsetPipeline(f: Frame, cfg: Config, detected: Option<seq<int>>): (r: Result<seq<OnsetRow>, RunError>)
    requires f.Rectangular() && DetectorContract(f, detected)
    ensures r.Ok? ==>
      f.HasColumn(PressureColumn(cfg.pressureSensor)) && f.HasColumn(TemperatureColumn(cfg.temperatureSensor)) &&
      f.HasColumn(TimeColumn) && detected.Some? &&
      |r.value| == |RetainedBreakpoints(f, cfg, detected.value)|
    ensures detected.None? ==> r.Err?
  {
    var pcol := PressureColumn(cfg.pressureSensor);
    var tcol := TemperatureColumn(cfg.temperatureSensor);
    if !f.HasColumn(pcol) then Err(MissingColumn(pcol))
    else if !f.HasColumn(tcol) then Err(MissingColumn(tcol))
    else if !f.HasColumn(TimeColumn) then Err(MissingColumn(TimeColumn))
    else if detected.None? then Err(DetectorFailed)
    else RefinedRows(f, tcol, RetainedBreakpoints(f, cfg, detected.value), cfg.range)
  }

  /** What a successful run delivers: one row per retained breakpoint, in
      order; row `j` is the temperature of column 4 and the time at the onset
      localised in the selected temperature column around breakpoint
      `kept[j]`, and each kelvin value is its Celsius value plus 273.15. */
  lemma SuccessfulRun(f: Frame, cfg: Config, bkps: seq<int>, rows: seq<OnsetRow>)
    requires f.Rectangular() && IsDetectorOutput(bkps, SeriesLength(f))
    requires OnsetPipeline(f, cfg, Some(bkps)) == Ok(rows)
    ensures f.HasColumn(PressureColumn(cfg.pressureSensor)) && f.HasColumn(TemperatureColumn(cfg.temperatureSensor))
    ensures |rows| == |RetainedBreakpoints(f, cfg, bkps)|
    ensures forall j | 0 <= j < |rows| ::
      var kept := RetainedBreakpoints(f, cfg, bkps);
      var col := f.cols[TemperatureColumn(cfg.temperatureSensor)];
      LocaliseOnset(col, kept[j], cfg.range).Ok? &&
      var onset := LocaliseOnset(col, kept[j], cfg.range).value;
      onset < f.Rows() && f.HasColumn(RefinedTemperatureColumn) &&
      rows[j].celsius * TemperatureScale == f.cols[RefinedTemperatureColumn][onset] &&
      rows[j].kelvin - KelvinOffset == rows[j].celsius &&
      rows[j].minutes * SecondsPerMinute == f.cols[TimeColumn][onset]
  {
  }

  /** When the columns exist and the detector returned, a run succeeds
      exactly when every retained breakpoint's window yields an onset and
      column 4 exists; column 4 is never read when no breakpoint is kept. */
  lemma RunSucceedsIff(f: Frame, cfg: Config, bkps: seq<int>)
    requires f.Rectangular() && IsDetectorOutput(bkps, SeriesLength(f))
    requires f.HasColumn(PressureColumn(cfg.pressureSensor)) && f.HasColumn(TemperatureColumn(cfg.temperatureSensor))
    requires f.HasColumn(TimeColumn)
    ensures OnsetPipeline(f, cfg, Some(bkps)).Ok? <==>
      forall j | 0 <= j < |RetainedBreakpoints(f, cfg, bkps)| ::
        LocaliseOnset(f.cols[TemperatureColumn(cfg.temperatureSensor)], RetainedBreakpoints(f, cfg, bkps)[j], cfg.range).Ok? &&
        f.HasColumn(RefinedTemperatureColumn)
  {
  }

  /** No breakpoint in the band is not an error: the table is empty. */
  lemma NoEventsGivesEmptyTable(f: Frame, cfg: Config, bkps: seq<int>)
    requires f.Rectangular() && IsDetectorOutput(bkps, SeriesLength(f))
    requires f.HasColumn(PressureColumn(cfg.pressureSensor)) && f.HasColumn(TemperatureColumn(cfg.temperatureSensor))
    requires f.HasColumn(TimeColumn)
    requires forall x | x in DropTerminal(bkps) && 0 <= x < SeriesLength(f) ::
      !InBand(f.cols[PressureColumn(cfg.pressureSensor)][x + 1], cfg.pinit, cfg.pfinal)
    ensures OnsetPipeline(f, cfg, Some(bkps)) == Ok([])
  {
    var candidates := DropTerminal(bkps);
    DropTerminalIsInterior(bkps, SeriesLength(f));
    forall k | 0 <= k < |candidates|
      ensures !InBand(f.Series(PressureColumn(cfg.pressureSensor))[candidates[k]], cfg.pinit, cfg.pfinal)
    {
      assert candidates[k] in candidates;
    }
    NothingInBand(candidates, f.Series(PressureColumn(cfg.pressureSensor)), cfg.pinit, cfg.pfinal);
  }

  /** A run fails as soon as one retained breakpoint lies closer than
      `range` to the start of a frame at least `2 * range` rows long: the
      negative slice start wraps to the end of the frame instead of being
      clamped, and the window is empty. */
  lemma EarlyBreakpointAborts(f: Frame, cfg: Config, bkps: seq<int>)
    requires f.Rectangular() && IsDetectorOutput(bkps, SeriesLength(f))
    requires f.HasColumn(PressureColumn(cfg.pressureSensor)) && f.HasColumn(TemperatureColumn(cfg.temperatureSensor))
    requires f.HasColumn(TimeColumn)
    requires exists x | x in RetainedBreakpoints(f, cfg, bkps) :: x < cfg.range
    requires 2 * cfg.range <= f.Rows()
    ensures OnsetPipeline(f, cfg, Some(bkps)).Err?
  {
    var kept := RetainedBreakpoints(f, cfg, bkps);
    var x :| x in kept && x < cfg.range;
    var j :| 0 <= j < |kept| && kept[j] == x;
    var tcol := TemperatureColumn(cfg.temperatureSensor);
    NegativeStartWraps(f.cols[tcol], x, cfg.range);
    assert RefineOne(f, tcol, kept[j], cfg.range).Err?;
    assert Refinements(f, tcol, kept, cfg.range)[j].Err?;
  }

  /** The core as the program runs it: look up the columns, drop the
      terminal breakpoint, filter by pressure, build the table and refine it
      in place. */
  method ExtractOnsets(f: Frame, cfg: Config, detected: Option<seq<int>>) returns (res: Result<seq<OnsetRow>, RunError>)
    requires f.Rectangular() && DetectorContract(f, detected)
    ensures res == OnsetPipeline(f, cfg, detected)
  {
    var pcol := PressureColumn(cfg.pressureSensor);
    var tcol := TemperatureColumn(cfg.temperatureSensor);
    if !f.HasColumn(pcol) {
      return Err(MissingColumn(pcol));
    }
    if !f.HasColumn(tcol) {
      return Err(MissingColumn(tcol));
    }
    if !f.HasColumn(TimeColumn) {
      return Err(MissingColumn(TimeColumn));
    }
    if detected.None? {
      return Err(DetectorFailed);
    }
    var pressure := f.Series(pcol);
    DropTerminalIsInterior(detected.value, SeriesLength(f));
    var result := DropTerminal(detected.value);
    result := FilterBand(result, pressure, cfg.pinit, cfg.pfinal);
    var table := TabulateOnsets(f, tcol, result);
    var l, err := RefineInPlace(table, f, tcol, result, cfg.range);
    if err.Some? {
      return Err(err.value);
    }
    return Ok(table[..]);
  }
}
