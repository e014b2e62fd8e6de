# OLED telemetry display: a verified model of its log-reading core

The script `OLED_Display.py` runs on a Raspberry Pi. It shows one engine
value at a time on a small OLED: RPM, TPS, AFR, CLT or IAT. The value is
read from the newest TunerStudio datalog (`*.msl`, tab-separated). A push
button cycles through the five labels. This project models in Dafny the
logic of that script that does not depend on hardware, and proves what it
does:

- **Newest-log selection** (`LogFiles`): the candidate files are
  `(path, mtime)` pairs in glob order. The result is None exactly when
  there is no candidate. Otherwise it is the first file with the greatest
  mtime, as Python's `max` picks it.
- **Header resolution** (`Header`, with `Text` for `strip`, `split` and
  `startswith`): the header is the first line that starts with `Time` or
  `ts`. It is stripped and split on tabs. The name-to-column map keeps the
  last position of a repeated name.
- **Live value extraction** (`Extraction`): the last line of the file's
  tail is stripped and split on tabs. Each label maps to the field at its
  column, or to `N/A` when the header lacks it. Python's blanket `except`
  becomes an explicit `Result` with a `Failure` kind. Any failure turns
  every label into `N/A`.
- **Debounce and selection** (`Buttons`): time is in integer milliseconds.
  A press is reported only when the pin is low and strictly more than
  300 ms have passed since the last reported press. Each press moves the
  selection to `(index + 1) % 5`.
- **The script's globals** (`Display.Dashboard`): `index`,
  `last_press_time`, `log_header` and `log_columns` are fields of a class.
  `parse_header`, `get_live_values`, `get_button` and one pass of the main
  loop are methods that update them. One tick's view of the filesystem is
  a `Snapshot` value. It holds the globbed files with their mtimes, the
  lines of each file read from its start, and the lines of each file's
  last 800 bytes. A path missing from a map means that the open or seek
  failed.

Two properties of the code shape the model:

- The header is parsed only while `log_header` is empty
  (`OLED_Display.py:64`). `split` always returns at least one field, so
  after the first header line is found, `log_header` is never empty again.
  A newer log file is then read with the first file's columns.
  `Display.Dashboard.GetLiveValues` and `Display.Dashboard.Tick` state this.
- The code keeps no read position and does not handle a partially written
  last line. It knows only the tab delimiter and only the `.msl` extension.
  On every tick it re-reads the last line of the file's last 800 bytes.

## Model

| member | source | states |
|---|---|---|
| `Text.Strip` | OLED_Display.py:51 | the result is `s[i..j]`, where `s[..i]` and `s[j..]` are all whitespace (Python's `isspace` set) and the result neither starts nor ends with whitespace |
| `Text.StrippedAtUnique` | OLED_Display.py:51 | the leading and trailing whitespace runs are fixed by the string, so that description of `strip` has one answer |
| `Text.StripIdempotent` | OLED_Display.py:70 | stripping an already stripped line changes nothing |
| `Text.Split` | OLED_Display.py:72 | `split("\t")` yields at least one field, no field contains a tab, and joining the fields with tabs gives back the input |
| `Text.SplitJoin` | OLED_Display.py:51 | the other direction: splitting tab-free fields joined by tabs returns exactly those fields |
| `LogFiles.ArgMax` | OLED_Display.py:42 | the left-to-right `max` by mtime stops at a greatest mtime that no earlier file reaches |
| `LogFiles.FirstMaxUnique` | OLED_Display.py:42 | only one index satisfies that, so the choice among equal mtimes is deterministic |
| `LogFiles.GetLatestLog` | OLED_Display.py:37-42 | None exactly when there are no candidates; otherwise the path of the first file with the greatest mtime |
| `LogFiles.LatestIsNewest` | OLED_Display.py:40-42 | if any candidate exists, a path is returned, and its file is at least as new as every candidate |
| `Header.FindHeaderFrom` | OLED_Display.py:49-53 | from a given line on, the scan stops at the first line starting with `Time` or `ts`, or finds none |
| `Header.FindHeader` | OLED_Display.py:49-53 | the scan from the start: the chosen line matches, no earlier line does, and None means no line matches |
| `Header.FindHeaderIgnoresLaterLines` | OLED_Display.py:49-53 | lines after the first header line do not change which line is chosen |
| `Header.HeaderFields` | OLED_Display.py:51 | the header names are at least one name, contain no tab, and joined by tabs give the stripped header line |
| `Header.ParsedHeader` | OLED_Display.py:46-55 | a new header is installed exactly when the file can be read and has a header line, and it is never empty |
| `Header.ColumnMap` | OLED_Display.py:52 | the keys are exactly the header names; each maps to an in-range position holding that name, and no later position holds it |
| `Header.ColumnMapCoversHeader` | OLED_Display.py:52 | every position's name is a key mapped at or after that position, and exactly to it when the name does not occur later |
| `Extraction.AllNA` | OLED_Display.py:62 | the fallback has exactly the five labels as keys, each mapped to `N/A` |
| `Extraction.LastRow` | OLED_Display.py:69-72 | the fields of the last tail line are at least one and contain no tab, and joined by tabs they give the stripped line |
| `Extraction.ReadRow` | OLED_Display.py:67-80 | the failure is `Unreadable` exactly when the tail cannot be read, `NoLines` exactly when it is empty, and `ColumnOutOfRange` exactly when a present label's column is past the end of the row; a success has exactly the five labels as keys |
| `Extraction.LiveValues` | OLED_Display.py:67-83 | always exactly the five labels; on any failure every label is `N/A`; otherwise a present label gets the field at its column and an absent label gets `N/A` |
| `Extraction.OneBadColumnBlanksAll` | OLED_Display.py:77-83 | one label whose column is past the end of the row makes every label `N/A`, including labels whose columns fit |
| `Extraction.HeaderRowRoundTrip` | OLED_Display.py:51-79 | for a header and a last line of at least as many tab-free fields, each label shows the field under the last header column of that name, and a label missing from the header shows `N/A` |
| `Buttons.Debounce` | OLED_Display.py:100-108 | over a run of polls, a reported press is always a low sample. It comes more than 300 ms after the starting press time and more than 300 ms after every earlier reported press (`DebounceStep` gives the converse) |
| `Buttons.LastPressAfter` | OLED_Display.py:104-106 | after a run, `last_press_time` is the time of the last reported press, or the starting value when nothing was reported |
| `Buttons.DebounceStep` | OLED_Display.py:103-107 | in a run, each poll is reported exactly when it is low and more than 300 ms after the last press time left by the polls before it |
| `Buttons.NoPressKeepsTime` | OLED_Display.py:103-108 | a run with no reported press leaves `last_press_time` unchanged |
| `Buttons.NextIndex` | OLED_Display.py:118 | the next index is in range, wraps to 0 exactly from the last label, and otherwise is one more |
| `Buttons.Cycle` | OLED_Display.py:116-118 | after any number of presses the index stays in range |
| `Buttons.CycleShifts` | OLED_Display.py:118 | `n` presses move the index `n` places, modulo the number of labels |
| `Buttons.FullCycleReturns` | OLED_Display.py:118 | after as many presses as there are labels, the index is back where it started |
| `Buttons.IndexAfter` | OLED_Display.py:115-118 | the index after a run of polls is the start index advanced by the number of reported presses |
| `Display.Dashboard.constructor` | OLED_Display.py:29-35 | the globals start as `index = 0`, `last_press_time = 0` and an empty header and column map |
| `Display.Dashboard.ParseHeader` | OLED_Display.py:44-55 | the first header line's fields become `log_header` and its column map becomes `log_columns`; an unreadable file or no header line leaves both unchanged |
| `Display.Dashboard.GetLiveValues` | OLED_Display.py:57-83 | with no log file: all `N/A` and the header untouched. The header is parsed only while `log_header` is empty, so a set header is never refreshed, even for a different newest file. The values are `LiveValues` over the resulting columns and the newest file's tail |
| `Display.Dashboard.GetButton` | OLED_Display.py:100-108 | a press is reported exactly when the pin is low and more than 300 ms have passed since `last_press_time`; `last_press_time` becomes the current time only then |
| `Display.Dashboard.Tick` | OLED_Display.py:114-135 | a reported press advances `index` modulo 5, and the index stays in range. With no log file the header is untouched and the value is `N/A`. A set header is never refreshed; an empty one takes the newest file's header line, if it has one. The shown label is `labels[index]`, and its value is the live value for it over the resulting columns |

## Left out

- GPIO setup, pin reads and cleanup (`OLED_Display.py:5, 23-25, 103, 141-142`): hardware I/O. The pin level is a parameter.
- The OLED device, fonts and `draw_display` (`OLED_Display.py:6-9, 15-20, 85-98`): rendering goes through the luma and PIL libraries, which are not part of this model. The centring depends on `textsize`.
- `glob`, `os.path.getmtime`, `open`, `seek(-800, SEEK_END)`, `readlines` and `decode(errors="ignore")`: filesystem calls. Their results are the `Snapshot` inputs. A file shorter than 800 bytes, whose seek fails, is a path missing from `Snapshot.tail`.
- `LogFiles.GetLatestLog`: does not model a file that disappears between `glob` and `getmtime`. That race raises inside the `try` and gives all `N/A`; here mtimes are given values.
- `Buttons.Debounce`, `Display.Dashboard.GetButton`: use integer milliseconds in place of the float seconds of `time.time()`, so sub-millisecond differences around the 300 ms threshold are not modelled.
- The test-mode branch and the blink toggle (`OLED_Display.py:120-128, 132`): `test_mode` is `False` and never assigned, so this code is unreachable. It also reads the wall clock.
- `time.sleep`, the endless polling loop and `KeyboardInterrupt` (`OLED_Display.py:115, 139, 141`): one iteration is `Display.Dashboard.Tick`, and runs of polls are `Buttons.IndexAfter`.
- The error print in `parse_header` (`OLED_Display.py:55`): console output only.
