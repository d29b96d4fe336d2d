# Timing-log viewer: parser and aggregator

A model in Dafny of `dataview.py`. The script reads the log of a Mamba
inference run and keeps lines of the form
`<date> - INFO - [Layer N] <component> time: <i>.<f> ms`. From each kept
line it extracts one record of layer, component name and time in
milliseconds. It normalises the component names through a six-entry
table. It then computes two results:

- the total time per component, sorted from the largest total down;
- a table of layers by components, whose columns are cut down to a fixed
  display order.

The model has six modules:

- `Wrappers`: `Option`.
- `PyStr`: the Python string operations the parser uses. These are
  `in`, `split` (with the left-to-right scan for the separator that it
  performs), `rfind` and `strip` (with Python's `isspace` set), the greedy `\d+`, `int()` on a digit string, and `float()` on
  `<digits>.<digits>` as an exact rational number.
- `LogLine`: the per-line extractor (`dataview.py` lines 21-79). It
  covers the `'- INFO -'` filter, the loose regular expression
  `\[Layer \d+\] .*?: \d+\.\d+ ms` (with a lazy `.*?` that does not
  cross a newline), the split on `' - INFO - '`, the `[Layer N]` tag,
  the split at the last colon, the leading decimal and
  `component_mapping`. `ParseLine` returns `None` at the first step that
  fails, as each `continue` of the loop does.
- `Pipeline`: the reading loop that appends to `parsed_data`, and the
  "no timing data" exit. The log file is modelled as the sequence of its
  lines, each with its line terminator.
- `Aggregate`: `groupby('component').sum().sort_values(ascending=False)`,
  `pivot_table(..., fill_value=0)` and the `ordered_columns` selection.
- `Scenarios`: the model's behaviour on concrete sample lines and records:
  a full timing line, lines that are skipped, and a layer timed twice.

`time_ms` is an exact `real`: `float("1.234")` is `1.234`, so sums and
means have no rounding.

Two behaviours of the code are modelled as written:

- `pivot_table` uses pandas' default aggregation, the mean. When a layer
  and a component are timed twice, the table shows the mean while the
  totals show the sum (`Scenarios.MeanInBreakdownSumInTotals`).
- `selective_state_update` is mapped to `"SSM scan"`, but the display
  order lists `"SSM scan/update"`. That column is therefore never shown
  (`Aggregate.ScanColumnNeverShown`).

## Model

| member | source | states |
|---|---|---|
| PyStr.Contains | dataview.py:29 | `pat in s` holds exactly when `pat` occurs at some index of `s` |
| PyStr.FindFrom | dataview.py:32 | the scan inside `split`: the leftmost occurrence at or after a start index, and none when there is none |
| PyStr.Split | dataview.py:32 | the pieces join back to the line with the separator; no piece contains it; there are two or more pieces exactly when the line contains it; the first piece ends at the first occurrence, and the second piece runs to the next occurrence or the end |
| PyStr.SplitRest | dataview.py:32 | with two or more pieces, the first is the text before the first occurrence and the others are the split of the text after it, so every piece is determined |
| PyStr.Strip | dataview.py:36 | the result is a slice of the input with white space only around it, and it neither starts nor ends with white space |
| PyStr.StripAround | dataview.py:36 | stripping white space from around a text that does not start or end with white space gives back that text |
| PyStr.RFind | dataview.py:49-51 | the index found holds the character and no later index does; no result means the character does not occur |
| PyStr.DigitRun | dataview.py:39 | the greedy `\d+` takes a prefix of digits that is followed by a non-digit or by the end |
| PyStr.DigitRunOf | dataview.py:39 | on digits followed by a non-digit, `\d+` takes exactly those digits |
| PyStr.DigitsValue | dataview.py:43 | `int()` of k digits is a natural number below 10^k |
| PyStr.DecimalValue | dataview.py:62 | `float(i.f)` lies between `int(i)` and `int(i) + 1` |
| LogLine.LazyTailSpec | dataview.py:21 | the lazy `.*?: \d+\.\d+ ms` matches exactly when the time tail follows some newline-free stretch |
| LogLine.LooseSearchSpec | dataview.py:21 | `log_line_pattern.search` succeeds exactly when the pattern matches at some start position |
| LogLine.MessageOf | dataview.py:32-36 | no message exactly when the line lacks `' - INFO - '`; otherwise the message is the stripped text between the first separator and the next one (or the end of the line) |
| LogLine.LayerTag | dataview.py:39-46 | a result means the message starts with `[Layer <digits>]`, and the layer is the value of those digits |
| LogLine.LayerTagComplete | dataview.py:39-46 | every message that starts with `[Layer <digits>]` has its tag read: the layer is the value of all the digits, and the rest is the text after `]` |
| LogLine.SplitAtLastColon | dataview.py:46-55 | nothing exactly when there is no colon; otherwise it cuts at a colon with no colon after it, strips both sides, and the time side holds no colon |
| LogLine.LeadingDecimal | dataview.py:58-62 | a result is the value of a leading `<digits>.<digits>` that no further digit extends, and it is non-negative |
| LogLine.LeadingDecimalComplete | dataview.py:58-62 | a time field that starts `<digits>.<digits>` followed by a non-digit is always read, with the value of those digits |
| LogLine.Normalise | dataview.py:66-76 | each of the six raw names maps to its canonical name; every other name passes through unchanged; no result is a raw key |
| LogLine.NormaliseIdempotent | dataview.py:66-76 | normalising twice is normalising once |
| LogLine.RecordOfMessage | dataview.py:39-79 | a record is read from the message itself: the layer is the value of the digits of its leading `[Layer <digits>]` tag; the component is the normalised, stripped text before the last colon of the stripped text after the tag; the time is the leading `<digits>.<digits>` of the stripped text after that colon, so it is non-negative. A tagged message with no colon after the tag, or with no leading decimal after the last colon, gives no record; a tagged message with a last colon and a leading decimal after it always gives one |
| LogLine.LastColonUnique | dataview.py:49 | a string has at most one last colon |
| LogLine.SplitAtLastColonAt | dataview.py:49-55 | a split at the last colon cuts exactly at the last colon |
| LogLine.TagComplete | dataview.py:39-46 | every reading of a message as `[Layer <digits>]` and text is the one the tag match returns |
| LogLine.ColonComplete | dataview.py:49-55 | whenever a string has a last colon, the split returns the stripped text on either side of it |
| LogLine.NoTagNoReading | dataview.py:39-41 | when the tag match fails, the message has no reading as `[Layer <digits>]` and text, so giving no record loses nothing |
| LogLine.NoColonNoReading | dataview.py:49-51 | when the split finds no colon after the tag, no reading of the message has a last colon there, so giving no record loses nothing |
| LogLine.NoTimeNoReading | dataview.py:58-60 | when no decimal leads the text after the last colon, no reading of the message has one, so giving no record loses nothing |
| LogLine.TagUnique | dataview.py:39-46 | a message has only one reading as `[Layer <digits>]` followed by text, and it is the one the tag match finds |
| LogLine.RecordOfStages | dataview.py:39-79 | when the tag, the last-colon split and the decimal all succeed, the record is read from the message's own tag, name and time, and no other reading of the message lacks a colon or a decimal |
| LogLine.ParseLine | dataview.py:29-79 | a line without `'- INFO -'`, without a match of the loose pattern, or without `' - INFO - '` gives no record. A record is read, in the sense of `RecordOfMessage`, from the stripped field between the first `' - INFO - '` and the next one. A line whose message has a tag but no colon after it, or no leading decimal after its last colon, gives no record; a line that passes both filters of line 29 and whose message has a tag, a last colon and a leading decimal after it gives a record |
| LogLine.SecondFieldUnique | dataview.py:32 | the first separator and the end of the field after it are determined by the line |
| LogLine.NoSeparatorNoField | dataview.py:32-34 | when the split finds no second part, the line has no first separator and no field after it |
| LogLine.MessageAt | dataview.py:32-36 | the message is the stripped field after the first separator, however that field is located |
| LogLine.RecordOfLine | dataview.py:29-79 | what a message's record says, and that a readable message gives a record, carry over to the line the message came from |
| LogLine.MessageOfWellFormed | dataview.py:32-36 | on a line `<prefix> - INFO - <message><eol>`, the message is recovered exactly |
| LogLine.RecordOfTimingMessage | dataview.py:39-79 | the message `[Layer d] raw: i.f ms` gives layer `int(d)`, the normalised stripped raw name and time `float(i.f)` |
| LogLine.ParseWellFormedLine | dataview.py:29-79 | every well-formed timing line gives the record of its layer, normalised stripped name and exact time |
| Pipeline.CollectAppend | dataview.py:79 | the records of a log in two parts are the records of the first part followed by those of the second |
| Pipeline.CollectAt | dataview.py:27-79 | each line contributes its own record, or none, at its own place between the records of the lines before and after it |
| Pipeline.CollectEmpty | dataview.py:96 | no record at all exactly when every line is rejected |
| Pipeline.ParsedRecordsOrigin | dataview.py:24-79 | every record comes from a line of the log, and no accepted line's record is missing |
| Pipeline.ParseLog | dataview.py:24-79 | the loop leaves `parsed_data` as the records of the accepted lines, in file order |
| Pipeline.Run | dataview.py:96-125 | the run stops with "no timing data" exactly when every line is rejected; otherwise it yields the totals and the breakdown table of the parsed records |
| Aggregate.SumForPermutation | dataview.py:108 | a component's total does not depend on the order of the records |
| Aggregate.Components | dataview.py:108 | the group keys: each component present exactly once |
| Aggregate.SortDesc | dataview.py:108 | a non-increasing permutation of its input |
| Aggregate.AggregatedTime | dataview.py:108 | one entry per component present and no other; each total is the sum of that component's times; totals do not increase along the list |
| Aggregate.TotalsAddUp | dataview.py:108 | the component totals add up to the time of all records |
| Aggregate.Layers | dataview.py:116 | the pivot's index: the layers present, increasing, each once |
| Aggregate.CountCell | dataview.py:116 | a layer and component have no record exactly when their count is zero |
| Aggregate.Cell | dataview.py:116 | a cell is 0 when no record has its layer and component; otherwise it is the mean of their times |
| Aggregate.CellWithinBounds | dataview.py:116 | a cell lies between the smallest and largest time it averages |
| Aggregate.PivotTable | dataview.py:116 | rows are the layers present, increasing; columns are the components present, each once; every cell is the mean or 0 |
| Aggregate.FilterPresent | dataview.py:124 | the list comprehension keeps exactly the names that are present, in the given order |
| Aggregate.OrderedColumns | dataview.py:120-124 | the columns are exactly the names in the display order that are present, in that order and without repetition |
| Aggregate.SelectColumns | dataview.py:125 | `pivot_df[cols]` keeps the rows and takes each named column's values from the pivot |
| Aggregate.LayerBreakdown | dataview.py:116-125 | the displayed table: layers present, increasing; the display-order components present, in that order; each cell the mean or 0 |
| Aggregate.ScanColumnNeverShown | dataview.py:120-124 | `selective_state_update` becomes "SSM scan", which the displayed table never holds as a column |
| Aggregate.MissingCellIsZero | dataview.py:116 | a displayed cell with no record for its layer and component is 0 |
| Scenarios.NoBracketNoLooseMatch | dataview.py:21 | the loose pattern finds nothing in text without `[` |
| Scenarios.LineWithoutTagSkipped | dataview.py:29 | a line without `[` gives no record |
| Scenarios.SampleTimingLine | dataview.py:29-79 | `2024-01-01 - INFO - [Layer 3] out_proj time: 1.234 ms` gives layer 3, component `out_proj`, 1.234 ms |
| Scenarios.MeanInBreakdownSumInTotals | dataview.py:108-116 | two `RMSNorm` timings of 1.0 and 3.0 in layer 0 give a cell of 2.0 but a total of 4.0 |

## Left out

- Opening the log file, the `FileNotFoundError` and generic read-error exits, and their messages (`dataview.py` lines 17, 25-26, 87-92): the log is given as the sequence of its lines.
- The printed messages and `exit()` of the "no timing data" guard (lines 97-99) are the `NoTimingData` outcome; the printing of the totals (lines 110-112) is left out.
- The per-line `except Exception` warning (lines 81-84): once the patterns have matched, the only step of the model's domain that can raise is `int()` on an over-long layer number (see `PyStr.DigitsValue` below). The warning it prints is left out.
- PyStr.DigitsValue: Python 3.11 and later, and the 3.7-3.10 security releases since 2022, refuse by default `int()` of a string of more than 4300 digits. A line whose `[Layer N]` tag has more than 4300 digits therefore raises at line 43 and is skipped with a warning by lines 81-84. The model reads any number of digits and gives a record for such a line.
- Plotting, figure styling and saving (lines 10-12 and 128 onwards), and the `HF_ENDPOINT` environment variable (line 7): they do not affect the data.
- `mambatest/run.py` is not part of this model: it only calls the tokenizer and the model of an external library.
- PyStr.DecimalValue: `float()` gives an IEEE double, and pandas sums and means round; the model uses exact rationals.
- PyStr.IsDigit: Python's `\d` and `int()` accept every Unicode decimal digit; the model covers the ASCII digits only.
- Aggregate.SortDesc: pandas' `sort_values` uses quicksort, which is not stable, so the order of equal totals is not determined; the model promises non-increasing totals and a permutation, but no order among ties.
- Aggregate.PivotTable: pandas sorts the pivot's column labels; the model keeps the order of first appearance. Lines 124-125 choose the displayed columns by name, so `LayerBreakdown` is the same either way.
