/**
 * The window length handed to the Savitzky-Golay filter. The filter itself is
 * not modelled; only the integer rule that turns the user's smoothing window
 * and the number of rows into the filter length.
 */
module Smoothing {

  /** The polynomial order passed with every window. */
  const PolyOrder: int := 3

  /**
   * The window length as written: the user's window made odd by adding one,
   * and, when the series is shorter than that, the largest odd number not
   * above the row count, raised to 3.
   */
  function WindowLength(smoothingWindow: int, rows: nat): (w: int)
    ensures w % 2 == 1
    ensures smoothingWindow % 2 == 1 && rows >= smoothingWindow ==> w == smoothingWindow
    ensures smoothingWindow % 2 == 0 && rows >= smoothingWindow + 1 ==> w == smoothingWindow + 1
    ensures rows < smoothingWindow || (smoothingWindow % 2 == 0 && rows == smoothingWindow) ==>
              (rows >= 3 ==> w <= rows <= w + 1) && (rows < 3 ==> w == 3)
    ensures rows >= 3 ==> w <= rows
  {
    var w := if smoothingWindow % 2 != 0 then smoothingWindow else smoothingWindow + 1;
    if rows < w then
      var fitted := if rows % 2 != 0 then rows else rows - 1;
      if fitted < 3 then 3 else fitted
    else w
  }

  /**
   * What scipy's `savgol_filter` accepts in its default 'interp' mode: a
   * polynomial order below the window length, and a window no longer than the
   * series.
   */
  predicate FilterAccepts(window: int, rows: nat) {
    PolyOrder < window <= rows
  }

  /**
   * The floor of 3 is below what the filter accepts with order 3: a four-row
   * series, or a user window of 1 or 3 on any series, gets a window the
   * filter rejects.
   */
  lemma FloorRejected()
    ensures WindowLength(50, 4) == 3 && !FilterAccepts(WindowLength(50, 4), 4)
    ensures WindowLength(1, 100) == 1 && !FilterAccepts(WindowLength(1, 100), 100)
    ensures WindowLength(3, 100) == 3 && !FilterAccepts(WindowLength(3, 100), 100)
  {
  }

  /** The smallest odd window the filter accepts with order 3. */
  const MinFittedWindow: int := 5

  /**
   * The evidently intended rule: the same odd window, capped by the series,
   * but with a floor the filter accepts.
   */
  function FittedWindowLength(smoothingWindow: int, rows: nat): (w: int)
    ensures w % 2 == 1 && w >= MinFittedWindow
    ensures rows >= MinFittedWindow ==> FilterAccepts(w, rows)
    ensures WindowLength(smoothingWindow, rows) >= MinFittedWindow ==> w == WindowLength(smoothingWindow, rows)
  {
    var odd := if smoothingWindow % 2 != 0 then smoothingWindow else smoothingWindow + 1;
    var w := if odd < MinFittedWindow then MinFittedWindow else odd;
    if rows < w then
      var fitted := if rows % 2 != 0 then rows else rows - 1;
      if fitted < MinFittedWindow then MinFittedWindow else fitted
    else w
  }
}
