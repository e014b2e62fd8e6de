/**
 * Newest-log selection: the script globs `*.msl` in its log directory and
 * picks the file with the greatest modification time. The directory listing
 * and the `getmtime` results are given as a sequence of (path, mtime) pairs,
 * in the order glob returned them.
 */
module LogFiles {
  import opened Wrappers

  datatype LogFile = LogFile(path: string, mtime: int)

  /** `k` is where Python's `max` stops: a greatest mtime, and the first one. */
  predicate IsFirstMax(files: seq<LogFile>, k: int) {
    && 0 <= k < |files|
    && (forall j :: 0 <= j < |files| ==> files[j].mtime <= files[k].mtime)
    && (forall j :: 0 <= j < k ==> files[j].mtime < files[k].mtime)
  }

  /**
   * Python's left-to-right `max(files, key=getmtime)`: the running best is
   * replaced only by a strictly newer file, so ties keep the earlier one.
   */
  function ArgMax(files: seq<LogFile>): (k: nat)
    requires |files| > 0
    ensures IsFirstMax(files, k)
    decreases |files|
  {
    if |files| == 1 then 0
    else
      var last := |files| - 1;
      var best := ArgMax(files[..last]);
      if files[last].mtime > files[best].mtime then last else best
  }

  /** The first-maximum index is unique, so the selection is deterministic. */
  lemma FirstMaxUnique(files: seq<LogFile>, k1: int, k2: int)
    requires IsFirstMax(files, k1) && IsFirstMax(files, k2)
    ensures k1 == k2
  {
    // both are maximal, so their mtimes tie; each is first among its ties
    assert files[k1].mtime == files[k2].mtime;
  }

  /** `get_latest_log`: None when there is no candidate, else the newest one. */
  function GetLatestLog(files: seq<LogFile>): (r: Option<string>)
    ensures r.None? <==> |files| == 0
    ensures r.Some? ==> exists k :: IsFirstMax(files, k) && files[k].path == r.value
  {
    if |files| == 0 then None else Some(files[ArgMax(files)].path)
  }

  /** Whatever is picked is at least as new as every candidate. */
  lemma LatestIsNewest(files: seq<LogFile>, f: LogFile)
    requires f in files
    ensures GetLatestLog(files).Some?
    ensures exists k :: 0 <= k < |files| && files[k].path == GetLatestLog(files).value
                        && files[k].mtime >= f.mtime
  {
  }
}
