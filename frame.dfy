/** The sensor log as pandas holds it after `read_csv(..., header=1)`: a
    rectangular table addressed by position (`df.iloc[row, column]`), with a
    default RangeIndex so that a row label and its position coincide. */
module SensorFrame {

  /** Column 1 holds the elapsed time in seconds. */
  const TimeColumn: nat := 1
  /** Column from which the refined onset temperature is always read. */
  const RefinedTemperatureColumn: nat := 4
  /** Raw temperatures are logged in tenths of a degree Celsius. */
  const TemperatureScale: real := 10.0
  const KelvinOffset: real := 273.15
  const SecondsPerMinute: real := 60.0

  /** Pressure sensor `pnum` (1 or 2) sits in column `pnum + 1`: after the
      time column and before the first temperature column. */
  function PressureColumn(pnum: nat): (c: nat)
    ensures 1 <= pnum ==> c != TimeColumn
    ensures pnum <= 2 ==> c < RefinedTemperatureColumn
  {
    pnum + 1
  }

  /** Temperature sensor `tnum` (1 to 4) sits in column `tnum + 3`, after
      both pressure columns. Only sensor 1 is the column the refined
      temperature is read from. */
  function TemperatureColumn(tnum: nat): (c: nat)
    ensures 1 <= tnum ==> PressureColumn(2) < c
    ensures c == RefinedTemperatureColumn <==> tnum == 1
  {
    tnum + 3
  }

  /** The table, stored column by column. */
  datatype Frame = Frame(cols: seq<seq<real>>) {

    function Rows(): nat {
      if |cols| == 0 then 0 else |cols[0]|
    }

    /** Every column has the same number of rows, as in a DataFrame. */
    predicate Rectangular() {
      forall c | 0 <= c < |cols| :: |cols[c]| == Rows()
    }

    predicate HasColumn(c: nat) {
      c < |cols|
    }

    /** `df.iloc[1:, c]`: column `c` without its first row. Position `i` of the
        result is row `i + 1` of the frame, so the series and the frame are
        two index spaces one row apart. */
    function Series(c: nat): (s: seq<real>)
      requires Rectangular() && HasColumn(c)
      ensures |s| == if Rows() == 0 then 0 else Rows() - 1
      ensures forall i | 0 <= i < |s| :: s[i] == cols[c][i + 1]
    {
      if |cols[c]| == 0 then [] else cols[c][1..]
    }
  }
}
