/**
 * The display script's module-level state and the steps of its polling loop
 * that change it: header parsing into `log_header`/`log_columns`, live value
 * reading, the debounced button with `last_press_time`, and the selected
 * label `index`. The filesystem is given as a snapshot taken for the tick.
 */
module Display {
  import opened Wrappers
  import opened Text
  import opened LogFiles
  import opened Header
  import opened Extraction
  import opened Buttons

  /**
   * What the script can see of its log directory during one tick: the
   * `*.msl` files with their mtimes, in glob order; the lines of each file
   * as read from its start (a path missing here cannot be opened); and the
   * lines of the last 800 bytes of each file (a path missing here cannot be
   * opened or is too short to seek back that far).
   */
  datatype Snapshot = Snapshot(
    files: seq<LogFile>,
    text: map<string, seq<string>>,
    tail: map<string, seq<string>>)

  class Dashboard {
    var index: nat
    var lastPressTime: int
    var logHeader: seq<string>
    var logColumns: map<string, nat>

    ghost predicate Valid()
      reads this
    {
      index < |Labels| && logColumns == ColumnMap(logHeader)
    }

    /** The script's initial globals. */
    constructor ()
      ensures Valid()
      ensures index == 0 && lastPressTime == 0
      ensures logHeader == [] && logColumns == map[]
    {
      index := 0;
      lastPressTime := 0;
      logHeader := [];
      logColumns := map[];
    }

    /**
     * `parse_header`: scan the lines for the first header line and install
     * it; an unreadable file or a file without header line changes nothing.
     */
    method ParseHeader(text: Option<seq<string>>)
      requires Valid()
      modifies this
      ensures Valid()
      ensures index == old(index) && lastPressTime == old(lastPressTime)
      ensures match ParsedHeader(text)
        case Some(h) => logHeader == h
        case None => logHeader == old(logHeader) && logColumns == old(logColumns)
    {
      if text.None? {
        return;
      }
      var lines := text.value;
      var i := 0;
      while i < |lines|
        invariant 0 <= i <= |lines|
        invariant FindHeaderFrom(lines, i) == FindHeader(lines)
        invariant logHeader == old(logHeader) && logColumns == old(logColumns)
      {
        if IsHeaderLine(lines[i]) {
          logHeader := Split(Strip(lines[i]), Tab);
          logColumns := ColumnMap(logHeader);
          break;
        }
        i := i + 1;
      }
    }

    /**
     * `get_live_values`: choose the newest log; parse its header only while
     * no header has been installed yet; read the last line of its tail.
     */
    method GetLiveValues(disk: Snapshot) returns (values: map<string, string>)
      requires Valid()
      modifies this
      ensures Valid()
      ensures index == old(index) && lastPressTime == old(lastPressTime)
      ensures values.Keys == LabelSet()
      ensures GetLatestLog(disk.files).None? ==>
        values == AllNA() && logHeader == old(logHeader) && logColumns == old(logColumns)
      ensures |old(logHeader)| > 0 ==> logHeader == old(logHeader) && logColumns == old(logColumns)
      ensures GetLatestLog(disk.files).Some? ==>
        var latest := GetLatestLog(disk.files).value;
        && values == LiveValues(logColumns, Get(disk.tail, latest))
        && (|old(logHeader)| == 0 ==>
              match ParsedHeader(Get(disk.text, latest))
              case Some(h) => logHeader == h
              case None => logHeader == old(logHeader))
    {
      var latest := GetLatestLog(disk.files);
      if latest.None? {
        return AllNA();
      }
      if |logHeader| == 0 {
        ParseHeader(Get(disk.text, latest.value));
      }
      values := LiveValues(logColumns, Get(disk.tail, latest.value));
    }

    /** `get_button`: report a debounced press and remember when it happened. */
    method GetButton(low: bool, now: int) returns (pressed: bool)
      requires Valid()
      modifies this
      ensures Valid()
      ensures pressed == Reports(old(lastPressTime), Sample(low, now))
      ensures pressed ==> low && now - old(lastPressTime) > DebounceMs
      ensures lastPressTime == if pressed then now else old(lastPressTime)
      ensures index == old(index) && logHeader == old(logHeader) && logColumns == old(logColumns)
    {
      pressed := false;
      if low {
        if now - lastPressTime > DebounceMs {
          lastPressTime := now;
          pressed := true;
        }
      }
    }

    /**
     * One pass of the main loop outside test mode: poll the button, advance
     * the selection on a press, read the live values and pick the selected
     * label and its value for drawing.
     */
    method Tick(low: bool, now: int, disk: Snapshot) returns (shown: string, value: string)
      requires Valid()
      modifies this
      ensures Valid()
      ensures index == if Reports(old(lastPressTime), Sample(low, now)) then NextIndex(old(index)) else old(index)
      ensures lastPressTime == if Reports(old(lastPressTime), Sample(low, now)) then now else old(lastPressTime)
      ensures GetLatestLog(disk.files).None? ==> logHeader == old(logHeader) && logColumns == old(logColumns)
      ensures |old(logHeader)| > 0 ==> logHeader == old(logHeader) && logColumns == old(logColumns)
      ensures GetLatestLog(disk.files).Some? && |old(logHeader)| == 0 ==>
        match ParsedHeader(Get(disk.text, GetLatestLog(disk.files).value))
        case Some(h) => logHeader == h
        case None => logHeader == old(logHeader)
      ensures shown == Labels[index]
      ensures GetLatestLog(disk.files).None? ==> value == NA
      ensures GetLatestLog(disk.files).Some? ==>
        value == LiveValues(logColumns, Get(disk.tail, GetLatestLog(disk.files).value))[shown]
    {
      var pressed := GetButton(low, now);
      if pressed {
        index := NextIndex(index);
      }
      var values := GetLiveValues(disk);
      shown := Labels[index];
      value := if shown in values then values[shown] else NA;
    }
  }
}
