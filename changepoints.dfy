/** Post-processing of the change-point detector's output. The detector
    (ruptures' PELT with a normal cost and penalty 1400) is foreign code; the
    model only assumes what it promises about its breakpoints. */
module ChangePoints {

  /** Each breakpoint is larger than the one before it. */
  predicate Ascending(s: seq<int>) {
    forall k | 0 < k < |s| :: s[k - 1] < s[k]
  }

  /** What the detector returns for a series of `n` samples: ascending
      segment ends, all positive, the last of which is `n` itself. */
  predicate IsDetectorOutput(bkps: seq<int>, n: nat) {
    |bkps| > 0 && bkps[|bkps| - 1] == n && Ascending(bkps) &&
    forall k | 0 <= k < |bkps| :: 0 < bkps[k]
  }

  /** `result[:-1]`: drop the last breakpoint (an empty list stays empty). */
  function DropTerminal(bkps: seq<int>): (r: seq<int>)
    ensures |bkps| > 0 ==> |r| == |bkps| - 1
    ensures r <= bkps
  {
    if |bkps| == 0 then [] else bkps[..|bkps| - 1]
  }

  /** In an ascending sequence every element before the last is below it. */
  lemma {:induction false} AscendingBelowLast(s: seq<int>, k: nat)
    requires Ascending(s) && k < |s| - 1
    ensures s[k] < s[|s| - 1]
    decreases |s| - k
  {
    if k < |s| - 2 {
      AscendingBelowLast(s, k + 1);
    }
  }

  /** Dropping the terminal breakpoint leaves only real events: indices of
      the series (positive and below `n`), still ascending, and `n` is gone. */
  lemma DropTerminalIsInterior(bkps: seq<int>, n: nat)
    requires IsDetectorOutput(bkps, n)
    ensures Ascending(DropTerminal(bkps))
    ensures forall k | 0 <= k < |DropTerminal(bkps)| :: 0 < DropTerminal(bkps)[k] < n
    ensures n !in DropTerminal(bkps)
  {
    var r := DropTerminal(bkps);
    forall k | 0 <= k < |r|
      ensures 0 < r[k] < n
    {
      AscendingBelowLast(bkps, k);
    }
  }
}
