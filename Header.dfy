/**
 * Header resolution: the first line of the log that starts with "Time" or
 * "ts" is the header; it is stripped and split on tabs, and each name is
 * mapped to its column position (for a repeated name, the last position).
 */
module Header {
  import opened Wrappers
  import opened Text

  const Tab: char := '\t'

  predicate IsHeaderLine(line: string) {
    StartsWith(line, "Time") || StartsWith(line, "ts")
  }

  /** Index of the first header line at or after `from`. */
  function FindHeaderFrom(lines: seq<string>, from: nat): (r: Option<nat>)
    requires from <= |lines|
    ensures r.Some? ==> from <= r.value < |lines| && IsHeaderLine(lines[r.value])
    ensures r.Some? ==> forall j :: from <= j < r.value ==> !IsHeaderLine(lines[j])
    ensures r.None? ==> forall j :: from <= j < |lines| ==> !IsHeaderLine(lines[j])
    decreases |lines| - from
  {
    if from == |lines| then None
    else if IsHeaderLine(lines[from]) then Some(from)
    else FindHeaderFrom(lines, from + 1)
  }

  /** The line the scan in `parse_header` stops at, if any. */
  function FindHeader(lines: seq<string>): (r: Option<nat>)
    ensures r.Some? ==> r.value < |lines| && IsHeaderLine(lines[r.value])
    ensures r.Some? ==> forall j :: 0 <= j < r.value ==> !IsHeaderLine(lines[j])
    ensures r.None? ==> forall j :: 0 <= j < |lines| ==> !IsHeaderLine(lines[j])
  {
    FindHeaderFrom(lines, 0)
  }

  /** Lines after the first header line cannot change which line is used. */
  lemma FindHeaderIgnoresLaterLines(lines: seq<string>, other: seq<string>, i: nat)
    requires FindHeader(lines) == Some(i)
    requires i < |other| && other[..i + 1] == lines[..i + 1]
    ensures FindHeader(other) == Some(i)
  {
  }

  /** The header names: the matching line, stripped and split on tabs. */
  function HeaderFields(line: string): (h: seq<string>)
    ensures |h| >= 1
    ensures Join(h, Tab) == Strip(line)
    ensures forall k :: 0 <= k < |h| ==> Tab !in h[k]
  {
    Split(Strip(line), Tab)
  }

  /**
   * The header that `parse_header` installs, or None when the file could not
   * be opened or has no header line (the globals are then left alone).
   */
  function ParsedHeader(text: Option<seq<string>>): (r: Option<seq<string>>)
    ensures r.Some? ==> text.Some? && |r.value| >= 1
    ensures r.Some? <==> text.Some? && FindHeader(text.value).Some?
  {
    if text.None? then None
    else match FindHeader(text.value)
      case None => None
      case Some(i) => Some(HeaderFields(text.value[i]))
  }

  /**
   * The dict comprehension `{name: i for i, name in enumerate(header)}`:
   * entries are inserted left to right, so a later duplicate overwrites.
   */
  function ColumnMap(header: seq<string>): (m: map<string, nat>)
    ensures m.Keys == set k | 0 <= k < |header| :: header[k]
    ensures forall n | n in m :: m[n] < |header| && header[m[n]] == n
    ensures forall n | n in m :: forall j :: m[n] < j < |header| ==> header[j] != n
    decreases |header|
  {
    if header == [] then map[]
    else
      var last := |header| - 1;
      var prev := ColumnMap(header[..last]);
      assert forall k :: 0 <= k < last ==> header[..last][k] == header[k];
      prev[header[last] := last]
  }

  /** Every column is found under its own name, at or after its position. */
  lemma ColumnMapCoversHeader(header: seq<string>, k: nat)
    requires k < |header|
    ensures header[k] in ColumnMap(header)
    ensures k <= ColumnMap(header)[header[k]]
    ensures ColumnMap(header)[header[k]] == k <==> forall j :: k < j < |header| ==> header[j] != header[k]
  {
  }
}
