# Botrista log parser — a Dafny model

The Botrista log parser reads the text logs of a drink-dispensing machine.
It keeps the lines that record events and gives each kept line one of 23
event labels. It then pairs each user action (an order, a retried order, a
fill-tube or cleaning selection, a customer-service request) with the
outcomes logged before the next action. From those pairs it counts, per
file and over a directory:

- the orders;
- the orders that ended in a stop;
- the orders that completed right after a dispensing-warning stop, which it
  calls self-resolved.

This project models the core of `log_parser.py` in Dafny and proves what
each step promises:

- `wrappers.dfy`: `Option` and `Result`.
- `text.dfy`: the Python string operations the parser relies on.
  - `str.strip` over Python's whitespace set.
  - `startswith` and `in`.
  - `str.split` on a separator, leftmost and non-overlapping. Its pieces
    join back to the input, and no piece contains the separator.
- `classifier.dfy`: `categorize_line`.
  - The if/elif cascade is an ordered table of 22 rules, each a list of cues
    and a label.
  - The first rule that fires wins; "unknown" is the fallback.
- `parser.dfy`: `parse_lines`, per line and per file.
  - Per line: strip, skip blanks, split into exactly three fields, apply the
    "log event" filter, then classify.
  - Per file: a pure specification (`ParseAll`) and the loop that builds the
    entries (`ParseLines`).
  - `eval(message)[1]` is replaced by a restricted parser (`StopReason`). It
    accepts exactly the two-element list literal `['<head>', '<reason>']`.
- `correlator.dfy`: `get_actions` and `action_results`. Each is a loop
  proved equal to a recursive specification, and the specification is
  characterised by lemmas.
- `stats.dfy`: `get_orders_incompletes`, `get_self_resolved` and the
  summation loop of `get_dir_stats`. Each is a loop proved equal to a
  counting function, with lemmas about those functions (bounds, additivity,
  cardinality).

Where the code's behaviour is surprising, the model follows the code:

- **An unreadable stop message.** When `eval` cannot read a "stopped"
  message, or the value it reads has no second element, the exception is
  not caught, so the whole file's parse fails: `Failure(BadStopReason(i))`.
  The model's restricted parser treats every message outside its one shape
  this way (see Left out).
- **The completion label.** It is "completed" in lower case, as in
  `categorize_line`. The self-resolution test compares against exactly that
  string.
- **`get_self_resolved` on an empty list.** The code reads
  `action_result_list[0]` without a guard, so it fails on an empty list. The
  model requires at least one pair.

## Model

| member | source | states |
|---|---|---|
| Classifier.Categorize | log_parser.py:10-60 | The label is one of the 23 labels. It is "unknown" exactly when no rule fires. Otherwise it is the label of a rule that fires with no earlier rule firing. |
| Classifier.RuleEvents | log_parser.py:15-58 | Every branch's label is a known label other than "unknown". |
| Classifier.EarliestRuleWins | log_parser.py:15-60 | Precedence: the first rule that fires decides the label, whatever later rules would also match. |
| Classifier.EarlyEvents | log_parser.py:15-30 | The branches up to "Fill Tube Start" return one of eight labels. |
| Classifier.FillTubeStartOutranksWait | log_parser.py:29-40 | A message holding "Fill Tube Start" is never labelled "wait" or "unknown". |
| Classifier.EarlyCues | log_parser.py:15-28 | Each of the first seven branches tests one cue that contains a 'v' or a '['. |
| Classifier.FillTubeStartWins | log_parser.py:15-30 | A message holding "Fill Tube Start", with no 'v' and no '[', is labelled "started fill" even when a later cue such as "Wait" also matches. |
| Classifier.FillTubeStartAndWaitExample | log_parser.py:29-40 | "---Fill Tube Start Wait" is labelled "started fill". |
| Classifier.CueTooLong | log_parser.py:15-58 | A cue longer than the message cannot match it. |
| Classifier.CueLengths | log_parser.py:15-58 | Every cue except "Wait" is longer than four characters. |
| Classifier.ShortMessageNoCue | log_parser.py:15-58 | A message of at most four characters with no 'W' matches no cue of the table. |
| Classifier.ShortMessageIsUnknown | log_parser.py:15-60 | Such a message is labelled "unknown". |
| Classifier.UnknownExample | log_parser.py:59-60 | "---x" is labelled "unknown". |
| Classifier.ServingCompleteWins | log_parser.py:15-18 | A message holding "Serving Complete" but not "Start Serving" is labelled "completed". |
| Classifier.CompletedExample | log_parser.py:17-18 | "---Serving Complete" is labelled "completed". |
| Text.Strip | log_parser.py:71 | The result has no whitespace at either end. It is a contiguous slice of the input with only whitespace cut off around it. It is empty exactly when the line is all whitespace. |
| Text.StripUnchanged | log_parser.py:71 | A string with no whitespace at either end strips to itself. |
| Text.StripIdempotent | log_parser.py:86 | Stripping twice equals stripping once, so the stored raw text equals the stripped line. |
| Text.SplitPieces | log_parser.py:75 | Split pieces joined with the separator give back the input. No piece contains the separator. Each cut is at the leftmost occurrence. |
| Text.SplitThree | log_parser.py:75 | `a + sep + b + sep + c` splits into exactly `[a, b, c]` when no occurrence of the separator starts inside `a` or `b` and `c` lacks the separator. |
| Text.SplitWhole | log_parser.py:75 | A string without the separator splits into itself alone. |
| LogParser.StopReason | log_parser.py:88 | A reason is returned only when the message is exactly a two-element list literal of plain strings, and the reason is its second element. |
| LogParser.StopReasonRoundTrip | log_parser.py:88 | Rendering `[head, reason]` and parsing it back yields `reason`. |
| LogParser.ClassifyLine | log_parser.py:84-91 | A kept line carries its index and timestamp. "unknown" is stored as "UNKNOWN" with the stripped line. "stopped" carries the parsed reason. Any other label carries nothing. The line fails exactly when it is "stopped" and its reason does not parse. |
| LogParser.ParseLine | log_parser.py:70-91 | Blank exactly for all-whitespace lines. Malformed exactly when a non-blank stripped line does not split into three fields. Ignored exactly when it splits into three fields that fail the event filter. Kept or a failed stop exactly when the three fields pass the filter, and then the line is classified from its timestamp and message. |
| LogParser.ParseLines | log_parser.py:63-92 | The loop over the lines returns exactly `ParseAll` of the lines. |
| LogParser.CollectNext | log_parser.py:70-91 | Collecting one more line extends the result of the lines before it. |
| LogParser.FailureIsFinal | log_parser.py:88 | Once a line has raised, later lines change nothing: the file's result is that failure. |
| LogParser.OutcomesNumbered | log_parser.py:70 | Each kept entry carries the index of its own line. |
| LogParser.CollectEntries | log_parser.py:68-91 | The entries are in line order. Each is the kept outcome of its own line. Every kept line appears. |
| LogParser.CollectFailures | log_parser.py:74-91 | On success, the recorded failures are exactly the 1-based numbers of the malformed lines, and no line raised. On failure, the error names the first line that raised. |
| LogParser.KeptEntryMeaning | log_parser.py:75-91 | Field by field: what a kept entry holds, in terms of the three split fields of its line. |
| LogParser.TagIsNotALabel | log_parser.py:85-86 | The tag "UNKNOWN" of unrecognised lines is not a label `categorize_line` returns. |
| LogParser.ParsedEntriesExact | log_parser.py:63-92 | A successful parse yields, in order, exactly the kept lines. |
| LogParser.SplitFailureSkipsLine | log_parser.py:74-78 | A non-blank line that does not split into three fields is reported by its 1-based number and contributes no entry. |
| LogParser.ParseFailures | log_parser.py:70-91 | Over the whole file: the reported numbers are exactly the malformed lines. On failure, the error is the first line whose stop reason does not parse. |
| LogParser.ParsedReasonsAttached | log_parser.py:87-89 | Every "stopped" entry of a parsed file carries its reason. |
| LogParser.SpacedField | log_parser.py:75 | A field in which no space is followed by a dash, such as a timestamp "2024-01-01 10:00:00,123", starts no " - ". |
| LogParser.SplitLogLine | log_parser.py:75 | `ts - level - message` splits into its three fields when no " - " starts inside the timestamp or the level and the message has no " - ". |
| LogParser.FormattedLineFields | log_parser.py:71-75 | Such a line, starting and ending with non-whitespace, is non-blank, strips to itself and splits into its fields. |
| LogParser.ParseFormattedLine | log_parser.py:70-91 | Such a line, when it passes the event filter, is classified from its own timestamp and message. |
| LogParser.ThreeFieldLine | log_parser.py:74-91 | A line whose stripped text splits into three fields that pass the filter is classified from those fields. |
| Correlator.ActionPositionsExact | log_parser.py:117-123 | The action indices strictly increase and are in range. An index is present exactly when its entry is an action. |
| Correlator.GetActions | log_parser.py:112-123 | The loop returns exactly the action positions. |
| Correlator.OutcomeLabel | log_parser.py:141-143 | The label starts with the outcome kind. A stop appends " - " and its reason. Any other kind is unchanged. |
| Correlator.ActionResults | log_parser.py:126-145 | The nested loops return exactly the window-by-window specification. |
| Correlator.WindowPairsExact | log_parser.py:138-144 | A pair is present in one window's pairs exactly for each outcome entry strictly inside that window. |
| Correlator.CorrelateExact | log_parser.py:134-144 | A pair is present in the first `n` windows' pairs exactly for each outcome inside those windows. |
| Correlator.WindowPairsInOrder | log_parser.py:138-144 | For entries in line order, one window's pairs come with strictly increasing result lines, all after the entries before the window and before the entries from its end on. |
| Correlator.CorrelateInOrder | log_parser.py:134-144 | For entries in line order and increasing action positions, the first `n` windows' pairs have strictly increasing result lines, all before the entries from action `n` on. |
| Correlator.ActionResultsExact | log_parser.py:133-145 | With fewer than two actions there are no pairs. Otherwise a pair is emitted exactly for an outcome strictly between an action and the next action, so the last action yields nothing. |
| Correlator.ActionResultsInOrder | log_parser.py:133-145 | For entries in line order and increasing action positions, the pairs have strictly increasing result lines. With `ActionResultsExact` this fixes the result: one pair per outcome inside a window, in line order. |
| Correlator.ParsedPairsInOrder | log_parser.py:133-145 | For the entries of a parsed file and their own action positions, the pairs can be built and come in the order of their outcome lines. |
| Correlator.WindowPairsExtend | log_parser.py:138-144 | Entries after a window do not change its pairs. |
| Correlator.CorrelateExtend | log_parser.py:134-144 | Entries after the last window do not change the first `n` windows' pairs. |
| Correlator.TrailingEntriesIgnored | log_parser.py:133-145 | Entries after the last action never change the result. |
| Correlator.ParsedWindowsWellFormed | log_parser.py:134-143 | The entries of a parsed file, with their own action positions, meet what `action_results` needs. |
| Correlator.MultiOutcomePositions | log_parser.py:117-123 | Four entries with actions at the ends have action positions `[0, 3]`. |
| Correlator.MultiOutcomeExample | log_parser.py:133-145 | An order followed by a dispensing-warning stop and a completion gives two pairs sharing the order. |
| Correlator.SingleActionExample | log_parser.py:133-145 | A single action and no later action gives no pairs. |
| Stats.GetOrdersIncompletes | log_parser.py:148-160 | The loop returns exactly the order count and the incomplete count. |
| Stats.CountBounds | log_parser.py:153-160 | incomplete ≤ orders ≤ number of pairs. |
| Stats.CountsAppend | log_parser.py:155-159 | Both counts are additive over concatenation. |
| Stats.CountsIgnoreOtherActions | log_parser.py:156-159 | A pair whose action is not an order changes neither count. |
| Stats.OrderCountIsCardinality | log_parser.py:155-157 | The order count is the number of positions whose action is "ordered" or "retry order". |
| Stats.IncompleteMeansStopped | log_parser.py:141-158 | Under the default outcomes, a pair's result contains "stopped" exactly when its outcome entry is a stop. |
| Stats.OtherOutcomesAreNotStops | log_parser.py:158 | Neither "completed" nor "finished fill" contains "stopped". |
| Stats.GetSelfResolved | log_parser.py:163-178 | The loop returns exactly the self-resolved count over all pairs after the first. |
| Stats.SelfResolvedBound | log_parser.py:168-178 | At most one self-resolution per pair after the first. |
| Stats.SelfResolvedAreCompleteOrders | log_parser.py:171-175 | Self-resolved plus incomplete never exceeds the orders, because a self-resolved pair is a completed order. |
| Stats.SelfResolvedIsCardinality | log_parser.py:171-175 | The count is the number of positions where the previous result is the dispensing-warning stop and the current pair is a completed order. |
| Stats.SelfResolvedExact | log_parser.py:171-175 | The count is zero exactly when no position self-resolves. |
| Stats.StatsOf | log_parser.py:190-196 | A file's row carries its name, incomplete ≤ orders ≤ pairs, and self-resolved ≤ pairs − 1. |
| Stats.FileRow | log_parser.py:191-196 | The per-file steps (actions, pairs, counts) compute exactly that row. |
| Stats.TotalsSnoc | log_parser.py:198-200 | Adding a file's row adds its three columns to the totals. |
| Stats.GetDirStats | log_parser.py:181-205 | The loop returns one row per file and the three totals, each the sum of its column. |
| Stats.RowsExact | log_parser.py:201-204 | Row `i` is the statistics of file `i`. |
| Stats.TotalsAppend | log_parser.py:186-200 | Totals are additive over concatenated groups of files, so grouping does not change them. |
| Stats.TotalsBounded | log_parser.py:198-199 | The total incomplete never exceeds the total orders. |
| Stats.CountsExample | log_parser.py:153-178 | An order stopped with a dispensing warning, then a completed retry, gives 2 orders, 1 incomplete and 1 self-resolved. |

## Left out

- File reading is not modelled. `ParseLines` takes the file's lines as a sequence of strings, and the file name is not carried through.
- `parse_all_logs` is not modelled: the directory walk, the "log"/"checkpoint" filename filter, and dropping files with no kept lines. `GetDirStats` takes the already parsed files.
- The message printed for a line that does not split becomes the `failures` list of 1-based line numbers. The text of the message is not modelled.
- LogParser.StopReason: the model accepts only the two-element list of plain strings `['<head>', '<reason>']` (no quote or backslash inside), which is the shape "Serving Stopped" messages take. `eval` reads more shapes, such as a list without the space after the comma, double-quoted strings, a tuple, a longer list or a bare string, and the code then stores whatever `[1]` gives. The model treats all of these as if `eval` had raised, so for such messages it fails the whole file where the code keeps going.
- LogParser.ParseLines: the model returns the first raising line as a `Failure`. In Python the exception propagates out of the caller too, ending the whole run. That propagation is not modelled.
- Correlator.ActionResults requires well-formed windows: indices in range, and a reason attached to every "stopped" entry inside a window. Python raises an IndexError otherwise. `ParsedWindowsWellFormed` shows that what `parse_lines` produces always meets this.
- Stats.GetSelfResolved requires at least one pair, because the code reads the first pair without a guard. The `prev_action` variable it keeps is never read, so it is not modelled.
- Stats.GetDirStats requires every file to be `Summarizable`: well-formed windows and at least one pair. It inherits this from `GetSelfResolved`.
- The `pandas` table and the CSV output are not modelled. The rows are returned as a sequence of `FileStats`.
- The script's main block is not modelled: arguments, timing, prints, and the percentage of incomplete orders (a floating-point division).
- Classifier.FillTubeStartWins: its condition (no 'v' and no '[') is sufficient, not necessary. The exact condition is `Categorize` itself.
