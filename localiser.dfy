/** The onset localiser: `df.iloc[i-R:i+R, c].diff().idxmax() - 1`, the
    position before the first steepest rise of a temperature column inside a
    window of the frame around breakpoint `i`. */
module OnsetLocaliser {
  import opened Outcomes

  /** Rows `[lo, hi)` of the frame selected by a positional slice. */
  datatype Window = Window(lo: nat, hi: nat) {
    function Size(): nat requires lo <= hi { hi - lo }
  }

  /** How Python resolves one end of a slice over `len` rows: a negative
      end counts from the end of the frame and is clamped at 0 only when it
      reaches past the start; an end past `len` is truncated to `len`. */
  function SliceEnd(x: int, len: nat): (r: nat)
    ensures r <= len
  {
    if x < 0 then (if x + len < 0 then 0 else x + len)
    else if x > len then len
    else x
  }

  /** The rows `[start:stop]` selects; an end before its start gives an
      empty window. */
  function PySlice(start: int, stop: int, len: nat): (w: Window)
    ensures w.lo <= w.hi <= len
    ensures w.lo == SliceEnd(start, len)
    ensures SliceEnd(stop, len) <= SliceEnd(start, len) ==> w.hi == w.lo
    ensures SliceEnd(start, len) <= SliceEnd(stop, len) ==> w.hi == SliceEnd(stop, len)
  {
    var lo := SliceEnd(start, len);
    var hi := SliceEnd(stop, len);
    Window(lo, if hi < lo then lo else hi)
  }

  /** `diff()` at position `k`: the signed rise from row `k - 1` to row
      `k`, positive when the temperature goes up and negative when it goes
      down (not its absolute value). */
  function Rise(col: seq<real>, k: nat): (r: real)
    requires 0 < k < |col|
    ensures r > 0.0 <==> col[k - 1] < col[k]
    ensures r < 0.0 <==> col[k] < col[k - 1]
  {
    col[k] - col[k - 1]
  }

  /** `k` is what `idxmax` returns on the differences of window
      `[lo, hi)`: the rise at `k` is the largest (signed) rise in the
      window, and every earlier position in the window rises strictly less.
      Position `lo` has no predecessor in the window (its difference is NaN)
      and is skipped. */
  predicate IsFirstMaxRise(col: seq<real>, lo: nat, hi: nat, k: nat)
    requires hi <= |col|
  {
    lo < k < hi &&
    (forall j | lo < j < hi :: Rise(col, j) <= Rise(col, k)) &&
    (forall j | lo < j < k :: Rise(col, j) < Rise(col, k))
  }

  /** Scan of the window `[lo, hi)` that replaces the best position only on
      a strictly larger rise, so the earliest maximum is kept. */
  function FirstMaxRise(col: seq<real>, lo: nat, hi: nat): (k: nat)
    requires lo + 2 <= hi <= |col|
    ensures lo < k < hi
    ensures forall j | lo < j < hi :: Rise(col, j) <= Rise(col, k)
    ensures forall j | lo < j < k :: Rise(col, j) < Rise(col, k)
    decreases hi
  {
    if hi == lo + 2 then lo + 1
    else
      var k := FirstMaxRise(col, lo, hi - 1);
      if Rise(col, hi - 1) > Rise(col, k) then hi - 1 else k
  }

  /** The first maximum is unique: any position with the `idxmax` property
      is the one the scan returns. */
  lemma FirstMaxRiseUnique(col: seq<real>, lo: nat, hi: nat, k: nat)
    requires lo + 2 <= hi <= |col|
    requires IsFirstMaxRise(col, lo, hi, k)
    ensures k == FirstMaxRise(col, lo, hi)
  {
  }

  /** Why localisation fails: the window holds fewer than two rows, so
      there is no difference to take the maximum of. */
  datatype LocaliseError = WindowTooSmall(breakpoint: int, window: Window)

  /** The window searched for breakpoint `i` with half-width `range`. */
  function SearchWindow(len: nat, i: int, range: int): (w: Window)
    ensures w.lo <= w.hi <= len
  {
    PySlice(i - range, i + range, len)
  }

  /** The onset row for breakpoint `i`: one before the first steepest rise
      of `col` within the search window; an error when the window has
      fewer than two rows. */
  function LocaliseOnset(col: seq<real>, i: int, range: int): (r: Result<nat, LocaliseError>)
    ensures r.Ok? <==> SearchWindow(|col|, i, range).Size() >= 2
    ensures r.Ok? ==> SearchWindow(|col|, i, range).lo <= r.value <= SearchWindow(|col|, i, range).hi - 2
    ensures r.Err? ==> r.error == WindowTooSmall(i, SearchWindow(|col|, i, range))
  {
    var w := SearchWindow(|col|, i, range);
    if w.Size() < 2 then Err(WindowTooSmall(i, w))
    else Ok(FirstMaxRise(col, w.lo, w.hi) - 1)
  }

  /** The onset found is the row before the first maximum rise of the
      window, so no row of the window rises more steeply than the onset's
      successor and none before it rises as steeply. */
  lemma OnsetIsBeforeFirstMaxRise(col: seq<real>, i: int, range: int)
    requires LocaliseOnset(col, i, range).Ok?
    ensures IsFirstMaxRise(col, SearchWindow(|col|, i, range).lo, SearchWindow(|col|, i, range).hi,
                           LocaliseOnset(col, i, range).value + 1)
  {
  }

  /** A window whose start is inside the frame is `[i - range, min(i + range, len))`:
      the upper end is silently truncated at the end of the frame. */
  lemma InBoundsWindow(len: nat, i: int, range: int)
    requires range > 0 && 0 <= i - range <= len
    ensures SearchWindow(len, i, range) == Window(i - range, if i + range < len then i + range else len)
  {
  }

  /** A start before row 0 is not clamped: it wraps to the end of the
      frame, so for a breakpoint closer than `range` to the start of a frame
      at least `2 * range` rows long the window is empty and localisation
      fails. */
  lemma NegativeStartWraps(col: seq<real>, i: int, range: int)
    requires 0 <= i < range && 2 * range <= |col|
    ensures SearchWindow(|col|, i, range).lo == |col| + i - range
    ensures SearchWindow(|col|, i, range).Size() == 0
    ensures LocaliseOnset(col, i, range).Err?
  {
  }

  /** A half-width of zero or less selects no rows once `i + range` is not
      negative, so localisation fails. */
  lemma NonPositiveRangeFails(col: seq<real>, i: int, range: int)
    requires range <= 0 && 0 <= i + range
    ensures SearchWindow(|col|, i, range).Size() == 0
    ensures LocaliseOnset(col, i, range).Err?
  {
  }
}
