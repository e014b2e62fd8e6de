/**
 * Button debounce and field selection. A poll of the button is a sample of
 * its level and the clock (in whole milliseconds); a press is reported only
 * when the button is low and strictly more than 300 ms have passed since the
 * last reported press. Each reported press moves the selection to the next
 * label, wrapping around.
 */
module Buttons {
  import Extraction

  const DebounceMs: int := 300

  /** The number of labels the selection cycles through. */
  const LabelCount: nat := |Extraction.Labels|

  /** One poll of the button: whether the pin reads low, and when. */
  datatype Sample = Sample(low: bool, now: int)

  /** Whether a poll is reported as a press, given the last reported press time. */
  predicate Reports(lastPress: int, s: Sample) {
    s.low && s.now - lastPress > DebounceMs
  }

  /**
   * The presses reported over a run of polls that starts with the given last
   * press time. Reported presses are only ever low samples, and any two of
   * them, and the first against the starting time, are more than 300 ms apart.
   * `DebounceStep` gives the exact rule that decides each poll.
   */
  function Debounce(lastPress: int, samples: seq<Sample>): (r: seq<bool>)
    ensures |r| == |samples|
    ensures forall k :: 0 <= k < |r| && r[k] ==> samples[k].low
    ensures forall k :: 0 <= k < |r| && r[k] ==> samples[k].now - lastPress > DebounceMs
    ensures forall j, k :: 0 <= j < k < |r| && r[j] && r[k] ==> samples[k].now - samples[j].now > DebounceMs
    decreases |samples|
  {
    if samples == [] then []
    else
      var pressed := Reports(lastPress, samples[0]);
      var next := if pressed then samples[0].now else lastPress;
      [pressed] + Debounce(next, samples[1..])
  }

  /**
   * The last reported press time after a run of polls: the time of the last
   * reported press, or the starting time when nothing was reported.
   */
  function LastPressAfter(lastPress: int, samples: seq<Sample>): (t: int)
    ensures t == lastPress || exists k :: 0 <= k < |samples| && Debounce(lastPress, samples)[k] && t == samples[k].now
    ensures forall k | 0 <= k < |samples| && Debounce(lastPress, samples)[k]
                       && (forall j | k < j < |samples| :: !Debounce(lastPress, samples)[j]) ::
              t == samples[k].now
    decreases |samples|
  {
    if samples == [] then lastPress
    else
      var next := if Reports(lastPress, samples[0]) then samples[0].now else lastPress;
      var t := LastPressAfter(next, samples[1..]);
      assert Debounce(lastPress, samples)[1..] == Debounce(next, samples[1..]);
      t
  }

  /**
   * The step law of `get_button` inside a run: each poll is reported exactly
   * when `Reports` holds against the last press time left by the polls
   * before it.
   */
  lemma {:induction false} DebounceStep(lastPress: int, samples: seq<Sample>, k: nat)
    requires k < |samples|
    ensures Debounce(lastPress, samples)[k] == Reports(LastPressAfter(lastPress, samples[..k]), samples[k])
    decreases k
  {
    var next := if Reports(lastPress, samples[0]) then samples[0].now else lastPress;
    if k == 0 {
      assert samples[..0] == [];
    } else {
      DebounceStep(next, samples[1..], k - 1);
      assert samples[1..][..k - 1] == samples[..k][1..];
      assert samples[..k][0] == samples[0];
    }
  }

  /** A run with no reported press leaves the last press time unchanged. */
  lemma NoPressKeepsTime(lastPress: int, samples: seq<Sample>)
    requires forall k :: 0 <= k < |samples| ==> !Debounce(lastPress, samples)[k]
    ensures LastPressAfter(lastPress, samples) == lastPress
  {
  }

  /** The selection after one reported press: `(index + 1) % len(labels)`. */
  function NextIndex(i: nat): (j: nat)
    requires i < LabelCount
    ensures j < LabelCount
    ensures j == 0 <==> i == LabelCount - 1
    ensures j != 0 ==> j == i + 1
  {
    (i + 1) % LabelCount
  }

  /** The selection after `n` reported presses. */
  function Cycle(i: nat, n: nat): (j: nat)
    requires i < LabelCount
    ensures j < LabelCount
    decreases n
  {
    if n == 0 then i else Cycle(NextIndex(i), n - 1)
  }

  /** `n` presses move the selection `n` places forward, modulo the label count. */
  lemma {:induction false} CycleShifts(i: nat, n: nat)
    requires i < LabelCount
    ensures Cycle(i, n) == (i + n) % LabelCount
    decreases n
  {
    if n > 0 {
      CycleShifts(NextIndex(i), n - 1);
      assert (NextIndex(i) + (n - 1)) % LabelCount == (i + n) % LabelCount;
    }
  }

  /** After as many presses as there are labels the selection is back where it started. */
  lemma FullCycleReturns(i: nat)
    requires i < LabelCount
    ensures Cycle(i, LabelCount) == i
  {
    CycleShifts(i, LabelCount);
  }

  /** The number of reported presses in a run. */
  function PressCount(r: seq<bool>): (n: nat)
    ensures n <= |r|
  {
    if r == [] then 0 else (if r[0] then 1 else 0) + PressCount(r[1..])
  }

  /** The selection after a run of polls starting from index `i`. */
  function IndexAfter(i: nat, lastPress: int, samples: seq<Sample>): (j: nat)
    requires i < LabelCount
    ensures j == Cycle(i, PressCount(Debounce(lastPress, samples)))
    decreases |samples|
  {
    if samples == [] then i
    else
      var pressed := Reports(lastPress, samples[0]);
      var next := if pressed then samples[0].now else lastPress;
      var r := Debounce(lastPress, samples);
      assert r == [pressed] + Debounce(next, samples[1..]);
      assert r[1..] == Debounce(next, samples[1..]);
      IndexAfter(if pressed then NextIndex(i) else i, next, samples[1..])
  }
}
