/**
 * Live value extraction: the last line of the log's tail is stripped and
 * split on tabs, and each of the five displayed labels is looked up through
 * the header's column map. Any failure on the way (no readable tail, no
 * lines, a column past the end of the row) replaces the whole result with
 * "N/A" for every label; the error type makes those failures explicit.
 */
module Extraction {
  import opened Wrappers
  import opened Text
  import opened Header

  /** The fields the display cycles through, in order. */
  const Labels: seq<string> := ["RPM", "TPS", "AFR", "CLT", "IAT"]

  const NA: string := "N/A"

  function LabelSet(): set<string> {
    set l | l in Labels
  }

  /** Why no row could be read. */
  datatype Failure =
    | Unreadable        // the file could not be opened or seeked
    | NoLines           // the tail holds no line at all
    | ColumnOutOfRange  // a label's column is past the end of the last line

  /** The fallback result: every label shows "N/A". */
  function AllNA(): (r: map<string, string>)
    ensures r.Keys == LabelSet()
    ensures forall l | l in r :: r[l] == NA
  {
    map l | l in Labels :: NA
  }

  /** The fields of the last line of the tail, stripped and split on tabs. */
  function LastRow(lines: seq<string>): (parts: seq<string>)
    requires |lines| > 0
    ensures |parts| >= 1
    ensures Join(parts, Tab) == Strip(lines[|lines| - 1])
    ensures forall k :: 0 <= k < |parts| ==> Tab !in parts[k]
  {
    Split(Strip(lines[|lines| - 1]), Tab)
  }

  /** Every label present in the header has a field in `parts`. */
  predicate InRange(columns: map<string, nat>, parts: seq<string>) {
    forall l | l in Labels && l in columns :: columns[l] < |parts|
  }

  /** One label's entry: its column's field, or "N/A" when it has no column. */
  function Field(columns: map<string, nat>, parts: seq<string>, l: string): string
    requires l in columns ==> columns[l] < |parts|
  {
    if l in columns then parts[columns[l]] else NA
  }

  /**
   * The `try` body of `get_live_values` after the file has been chosen, with
   * its exceptions as errors.
   */
  function ReadRow(columns: map<string, nat>, tail: Option<seq<string>>): (r: Result<map<string, string>, Failure>)
    ensures r == Err(Unreadable) <==> tail.None?
    ensures r == Err(NoLines) <==> tail == Some([])
    ensures r == Err(ColumnOutOfRange) <==>
      tail.Some? && |tail.value| > 0 && !InRange(columns, LastRow(tail.value))
    ensures r.Ok? ==> r.value.Keys == LabelSet()
  {
    if tail.None? then Err(Unreadable)
    else if tail.value == [] then Err(NoLines)
    else
      var parts := LastRow(tail.value);
      if !InRange(columns, parts) then Err(ColumnOutOfRange)
      else Ok(map l | l in Labels :: Field(columns, parts, l))
  }

  /**
   * What `get_live_values` returns once a latest file exists: the row read
   * from its tail, or all "N/A" when anything failed.
   */
  function LiveValues(columns: map<string, nat>, tail: Option<seq<string>>): (r: map<string, string>)
    ensures r.Keys == LabelSet()
    ensures ReadRow(columns, tail).Err? ==> forall l | l in r :: r[l] == NA
    ensures ReadRow(columns, tail).Ok? ==>
      var parts := LastRow(tail.value);
      forall l | l in Labels ::
        if l in columns then columns[l] < |parts| && r[l] == parts[columns[l]] else r[l] == NA
  {
    match ReadRow(columns, tail)
    case Ok(values) => values
    case Err(_) => AllNA()
  }

  /** A single label whose column is past the row's end blanks every label. */
  lemma OneBadColumnBlanksAll(columns: map<string, nat>, lines: seq<string>, bad: string)
    requires |lines| > 0
    requires bad in Labels && bad in columns && columns[bad] >= |LastRow(lines)|
    ensures forall l | l in Labels :: LiveValues(columns, Some(lines))[l] == NA
  {
  }

  /** The position of the last occurrence of `n` in `h`. */
  predicate IsLastIndex(h: seq<string>, n: string, k: int) {
    0 <= k < |h| && h[k] == n && forall j :: k < j < |h| ==> h[j] != n
  }

  /**
   * End to end: with the column map of header `h` and a last line whose
   * stripped text is the fields `row` joined by tabs (at least as many
   * fields as header names), each label shows the field under the last
   * header column with its name, and a label the header lacks shows "N/A".
   */
  lemma HeaderRowRoundTrip(h: seq<string>, row: seq<string>, lines: seq<string>)
    requires |row| >= |h| && |row| >= 1 && |lines| > 0
    requires forall k :: 0 <= k < |row| ==> Tab !in row[k]
    requires Strip(lines[|lines| - 1]) == Join(row, Tab)
    ensures forall l, k | l in Labels && IsLastIndex(h, l, k) :: LiveValues(ColumnMap(h), Some(lines))[l] == row[k]
    ensures forall l | l in Labels && l !in h :: LiveValues(ColumnMap(h), Some(lines))[l] == NA
  {
    var columns := ColumnMap(h);
    SplitJoin(row, Tab);
    assert LastRow(lines) == row;
    var r := LiveValues(columns, Some(lines));
    assert ReadRow(columns, Some(lines)).Ok?;
    forall l, k | l in Labels && IsLastIndex(h, l, k)
      ensures r[l] == row[k]
    {
      ColumnMapCoversHeader(h, k);
    }
    forall l | l in Labels && l !in h
      ensures r[l] == NA
    {
      assert l !in columns.Keys;
    }
  }
}
