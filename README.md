# AdventOfAction: the benchmark harness, modelled in Dafny

AdventOfAction runs every Advent of Code solution in a repository of
`day_<nn>/<language>_<person>/` directories. It checks each part's output
against the day's answers and records CPU time, peak memory and a note per
part in a Markdown table under the README's `## Stats` heading. This project
models that harness and proves what it promises:

- `py.dfy` (module `Py`): the Python built-ins the harness relies on, with
  Python's semantics, apart from the limits listed under "Left out":
  - `str.find`;
  - slicing with negative and out-of-range indices;
  - `split`, `split(maxsplit=1)`, `strip` and `splitlines`;
  - `int()` on text, and `str()` of an integer.
- `runners.py` as module `Runners`:
  - the `Part` enum and the six `Command` tables;
  - `execute_command`, with `subprocess.run` as an oracle that says how the
    process ended;
  - the reading of the `/usr/bin/time` report `kb,sys,user` from stderr.
- The types of `main.py` as module `Records`:
  - `Run`, `Stat` and `Stats`;
  - the `dict` holding them, as a sequence of entries in insertion order;
  - `d[k] = v` and `{**old, **new}` with Python's ordering: an existing key
    keeps its place, a new key is appended.
- `measure_execution_time` as module `Measure`:
  - four phases (setup, part one, part two, teardown);
  - per phase, the process started and how its outcome is classified into
    `(seconds, kb, notes)`.
- The `## Stats` table as module `Report`:
  - `from_table` (a loop, as in the source) and `to_table` (a nested loop);
  - the splice `write_results` makes into the README text, on strings.
- `RUNTIMES` and `main` as module `Harness`: reading the old results, the
  selection of the solutions to measure, and the final write.

Running a process is a function parameter: argument vector and timeout in,
exit code with captured stdout and stderr (or an expired timeout) out.
`main`'s oracle also receives the day and solution directory the process runs
in. Floating point is not modelled:
- the CPU time is kept as the two text fields of the wrapper's report;
- the `:.2f` rendering of their sum is a parameter `fmt`.

Three behaviours of the source are reproduced as written:
- `write_results` and `main` test `if section_ends`. A search that starts
  after the heading never returns 0, so this test is always true.
- When no later `"\n\n##"` heading exists, the section read is therefore
  `old_content[section_begins:-1]`, which drops the document's final
  character. `Report.StatsSection` states this, and
  `Report.ParseRenderUnterminated` shows that a table missing its final line
  break still reads back whole.
- `{**old_dict, **the_results}` lets the fresh results win for keys in
  both, and the model does the same. `main` never re-measures a key it read
  from the README, so in `main` no old value is ever overwritten:
  `Harness.MainReadsBack` shows the README ends up holding exactly the old
  results followed by the new ones.

`main.py` imports `Commands` from `runners`, which defines the class as
`Command`. The model reads the name as `Command`.

## Model

| member | source | states |
|---|---|---|
| Py.Find | advent_of_action/main.py:111-113 | `str.find`: -1 exactly when the pattern occurs nowhere from `start`, otherwise the first occurrence at or after `start` |
| Py.Slice | advent_of_action/main.py:114 | Python slicing: negative indices count from the end, out-of-range ones are clamped, a crossed range is empty |
| Py.Clamp | advent_of_action/main.py:77 | a slice bound resolved against a length: in range as is, negative from the end, beyond the end the length, before the start 0 |
| Py.Split | advent_of_action/main.py:80 | `str.split(sep)`: no piece contains the separator, joining the pieces with it gives the string back, and the first cut is at the first occurrence |
| Py.SplitCuts | advent_of_action/main.py:80 | every piece but the last ends where the separator first occurs in the text from that piece on, also for the self-overlapping " \| " |
| Py.SplitUnique | advent_of_action/main.py:80 | any separator-free pieces that join back to the text and are cut at first occurrences are exactly `str.split(sep)` |
| Py.SplitOnce | advent_of_action/main.py:163 | `split(sep, maxsplit=1)`: one piece iff the separator is absent; otherwise the text before its first occurrence (cut exactly there), then the rest |
| Py.Strip | advent_of_action/main.py:82 | `str.strip()`: the result is a substring with only whitespace cut on either side, has no surrounding whitespace, and a stripped string is unchanged |
| Py.SplitLines | advent_of_action/main.py:77 | `str.splitlines()`: no line holds a line boundary, and only the empty text has no lines |
| Py.SplitLinesBreak | advent_of_action/main.py:77 | a boundary-free line followed by one boundary ("\r\n", a "\r" not before "\n", or any other single boundary character) is split off whole, the boundary dropped |
| Py.SplitLinesSingle | advent_of_action/main.py:77 | a non-empty text without boundaries is a single line |
| Py.SplitLinesCases | advent_of_action/main.py:77 | every text is empty, boundary-free, or a line, a boundary and the rest, so the two lemmas above fix `splitlines()` on every input |
| Py.SplitLinesUnlines | advent_of_action/main.py:77 | lines without line breaks, each ended by "\n", split back into exactly those lines |
| Py.SplitLinesUnterminated | advent_of_action/main.py:77 | the same when the last line has no final line break |
| Py.SplitLinesDropLast | advent_of_action/main.py:77 | dropping the final line break of lines ended by "\n" splits into the same lines, when the last line is not empty |
| Py.UnlinesEnds | advent_of_action/main.py:103 | only no lines write nothing, and written lines end in a line break |
| Py.ParseInt | advent_of_action/runners.py:82 | `int(s)` succeeds exactly when the text holds none of U+001C..U+001F and, stripped, is an optional sign and a digit group (underscores allowed between digits) |
| Py.ParsePadded | advent_of_action/runners.py:82 | whitespace `int()` skips (all of `isspace()` but U+001C..U+001F) around a literal does not change what it reads |
| Py.ParseIntPadded | advent_of_action/runners.py:82 | `int(w1 + str(n) + w2) == n` for any such whitespace `w1`, `w2` |
| Py.StripPadded | advent_of_action/main.py:82 | `strip()` of a stripped text padded with whitespace gives exactly that text |
| Py.ParseIntToString | advent_of_action/main.py:50 | `int(str(n)) == n` for every integer, with no digit limit |
| Runners.PartValues | advent_of_action/runners.py:20-26 | the four `Part` values are distinct; `ONE` and `TWO` are "one" and "two" |
| Runners.CommandShapes | advent_of_action/runners.py:38-66 | Racket, OCaml, F# and Jupyter have empty setup and teardown; Rust only a setup; Python all three |
| Runners.ReadReport | advent_of_action/runners.py:81-82 | reading the wrapper's stderr fails with an unpacking error unless it holds exactly two commas, fails on a non-integer first field, and returns stripped stdout |
| Runners.ReadReportFields | advent_of_action/runners.py:81-82 | a report that is read is exactly an integer's text, the system seconds and the user seconds, comma-free and joined by commas |
| Runners.ReadReportOfWrapper | advent_of_action/runners.py:75-82 | what `/usr/bin/time -f %M,%S,%U` writes is read back as that memory and those two time fields |
| Runners.SplitCountsCommas | advent_of_action/runners.py:81 | `split(",")` gives one field more than there are commas, each comma-free |
| Runners.Observe | advent_of_action/runners.py:74-80 | an expired timeout is `TimeoutExpired` with that timeout; a non-zero exit is `CalledProcessError` with its code (`check=True`); a clean exit has its report read |
| Runners.ExecuteCommand | advent_of_action/runners.py:69-82 | the argv is always the time wrapper followed by the command unchanged; the timeout is the one given, or else the configured default |
| Records.Keys | advent_of_action/main.py:164 | the keys of a dict, one per entry, in order |
| Records.Get | advent_of_action/main.py:164 | lookup is absent exactly when the key is not a key, and gives the stored entry's stats |
| Records.Put | advent_of_action/main.py:85-88 | `d[k] = v`: an existing key keeps the key order, a new key is appended, distinct keys stay distinct |
| Records.PutGet | advent_of_action/main.py:167 | after `d[k] = v`, `k` gives `v` and every other key what it gave before |
| Records.PutExisting | advent_of_action/main.py:85-88 | storing the value a key already has changes nothing |
| Records.PutEntries | advent_of_action/main.py:85-88 | after `d[k] = v` every entry was in the dict before or is the new one |
| Records.Merge | advent_of_action/main.py:116 | `{**old, **new}`: the old keys first in their order, then the keys only new has in new's order; keys stay distinct |
| Records.MergeGet | advent_of_action/main.py:116 | a key new has takes new's value; every other key keeps its old value |
| Records.MergeEntries | advent_of_action/main.py:116 | a merge invents no entry |
| Records.MergeAppend | advent_of_action/main.py:116 | merging two batches in turn is merging their concatenation |
| Records.MergeAbsorbs | advent_of_action/main.py:116 | merging entries the dict already holds gives the dict back |
| Records.MergeNewKeys | advent_of_action/main.py:116 | entries under keys the dict lacks are appended in order |
| Records.MergeExtension | advent_of_action/main.py:116 | a dict merged with an extension of itself is that extension |
| Records.MergeIdempotent | advent_of_action/main.py:116 | merging the same fresh results twice is merging them once |
| Records.MergeOntoPrefix | advent_of_action/main.py:116 | a dict merged onto a dict that begins with it gives the latter |
| Records.MergeCons | advent_of_action/main.py:116 | the first fresh entry is assigned first, then the rest |
| Measure.Classify | advent_of_action/main.py:43-63 | a matching output gives `(fmt(secs), str(kb), "")`; no answer gives "Done", a wrong one "Different answer", a non-zero exit "Error (" + str(code) + ")", a timeout "Timeout", each with empty seconds and memory; only an unreadable report propagates |
| Measure.Inner | advent_of_action/main.py:41-63 | a part with an answer runs the command plus the part's token under the default timeout; setup and teardown run the command as is under 60 s, or nothing when it is empty, and are then "Done" |
| Measure.PlanPhases | advent_of_action/main.py:65-70 | the processes started are setup's, part one's, part two's and teardown's, in that order |
| Measure.MeasureExecutionTime | advent_of_action/main.py:38-70 | the processes started are always a prefix of the plan, the whole plan when a result is returned, and each ended as the process oracle says for its call |
| Measure.Sequence | advent_of_action/main.py:65-70 | the tuple stops at the first phase that raised: its log is the phases up to that one, all four when it returns |
| Measure.MeasureCalls | advent_of_action/main.py:65-70 | the processes the tuple starts follow the plan, all of it when a result is returned |
| Measure.MeasureObserved | advent_of_action/main.py:45-54 | every process in the tuple's log ended as the oracle says for its call |
| Measure.MeasureLog | advent_of_action/main.py:65-70 | the calls of the phases up to each one are a prefix of the plan |
| Measure.MeasureStops | advent_of_action/main.py:57-70 | a process error or timeout never stops the later phases; only an unreadable report does, and it is the last process started |
| Measure.MeasureStats | advent_of_action/main.py:65-70 | the two stats returned are the classification, against its own answer, of what the oracle returns for the run command with "one" and with "two" |
| Measure.PlanSizes | advent_of_action/runners.py:38-66 | only Python tears down: Python starts four processes, Rust three, the others two |
| Measure.NotesRecordVerdict | advent_of_action/main.py:44-63 | the note written says exactly how the phase ended; the exit code is recovered from "Error (c)" |
| Measure.ReadErrorNote | advent_of_action/main.py:60 | "Error (c)" reads back as exit code c |
| Report.ParseRows | advent_of_action/main.py:77-90 | the row loop: distinct keys stay distinct; it fails only by a wrong cell count, a "two" row with no "one" before it, or an unknown part other than "one"/"two" |
| Report.FromTable | advent_of_action/main.py:73-92 | the source's loop over lines, updating `part_one` and `results`, computes the table's parse |
| Report.ParseStopsAtBlank | advent_of_action/main.py:78-79 | nothing after the first empty line is read |
| Report.ParseTable | advent_of_action/main.py:73-92 | `from_table`: the results form a dict, a section of six lines or fewer holds none, and it fails only by a wrong cell count, a missing part one or an unknown part |
| Report.TableRows | advent_of_action/main.py:77-92 | the same for the loop over `lines[6:]` |
| Report.ParseRowLine | advent_of_action/main.py:78-90 | a non-empty line with seven cells is one step of the loop, then the loop on the lines after it |
| Report.ParseOneRow | advent_of_action/main.py:81-82 | a "one" row takes the place of the pending part-one stat, fields stripped |
| Report.ParseTwoRow | advent_of_action/main.py:83-88 | a "two" row stores the pending part-one stat with its own under its run |
| Report.TwoWithoutOne | advent_of_action/main.py:84 | a "two" row with no "one" row before it fails the assertion |
| Report.UnknownPartRaises | advent_of_action/main.py:89-90 | a row whose part is neither "one" nor "two" raises ValueError |
| Report.UnknownPartAfterRows | advent_of_action/main.py:89-90 | it does so after any number of good rows |
| Report.ParseRowsRendered | advent_of_action/main.py:77-88 | reading rendered rows merges their runs into the results, in order |
| Report.ReadRenderedRows | advent_of_action/main.py:77-88 | the rendered rows of a dict with clean fields read back as that dict |
| Report.ParsePair | advent_of_action/main.py:80-88 | a "one" row then a "two" row store their two stats under the "two" row's run and leave the "one" stat pending |
| Report.RowOfRow | advent_of_action/main.py:80-82 | a rendered row splits into seven cells that strip back to its fields |
| Report.SplitJoinCells | advent_of_action/main.py:80 | splitting "|"-free cells joined by " | " gives the cells back |
| Report.RenderTableShape | advent_of_action/main.py:95-104 | `to_table` starts with the heading and the two header rows, is only those without results, and ends with a line break |
| Report.RowLines | advent_of_action/main.py:100-103 | two rows per run |
| Report.RowLinesAt | advent_of_action/main.py:100-103 | run i's rows are rows 2i (part one) and 2i+1 (part two): runs keep the mapping's order |
| Report.RowLinesSnoc | advent_of_action/main.py:100-103 | one more run adds its two rows at the end |
| Report.ToTable | advent_of_action/main.py:95-104 | the source's nested loop that accumulates `table` builds the rendered table |
| Report.RenderTableLines | advent_of_action/main.py:95-104 | the table is the lines "", "", "## Stats", "", the header, the rule, then the rows, each ended by "\n" |
| Report.TableLinesBreakFree | advent_of_action/main.py:97-103 | no line of the table holds a line break, and every line from the header on starts with "|" |
| Report.TableAfterHeading | advent_of_action/main.py:97-99 | the table is the heading then lines with no blank line among them, ending in "\n" |
| Report.ParseRender | advent_of_action/main.py:73-104 | `from_table(to_table(R)) == R` for trimmed "|"-free, line-break-free fields |
| Report.ParseRenderUnterminated | advent_of_action/main.py:113-114 | the round trip also holds for the table without its final character |
| Report.StatsSection | advent_of_action/main.py:111-114 | found exactly when the heading occurs; from the heading to the next `"\n\n##"`, or to one character before the end when there is none |
| Report.ReadExisting | advent_of_action/main.py:145-149 | the results already in the README form a dict, and are empty when it has no stats heading |
| Report.WriteResults | advent_of_action/main.py:107-123 | without the heading the table is appended to the text; it fails exactly when the old table cannot be read, with that error |
| Report.WriteResultsSplice | advent_of_action/main.py:117-120 | text before the heading is kept byte for byte, then comes the merged table, then the text from the next heading on, or nothing |
| Report.NoHeadingInTable | advent_of_action/main.py:113 | a rendered table holds no `"\n\n##"` after its own heading |
| Report.HeadingNotCompleted | advent_of_action/main.py:111 | text without the heading does not end in a proper prefix of it |
| Report.FindsTable | advent_of_action/main.py:111-113 | in text + table + (nothing or a heading) the searches find the table's heading and the heading after it |
| Report.SectionOfSplice | advent_of_action/main.py:113-114 | the section read there is the table, less its last character when nothing follows |
| Report.ReadExistingWritten | advent_of_action/main.py:111-115 | the results read there are the table's |
| Report.WriteOverTable | advent_of_action/main.py:107-123 | writing over a written table replaces it by the table of the merge and keeps the text around it |
| Report.WriteIdempotent | advent_of_action/main.py:107-123 | writing the same results twice gives the same document as writing them once |
| Report.WriteThenRead | advent_of_action/main.py:107-123 | the results read from the written document are the merge of the old ones with the fresh |
| Harness.RuntimesTable | advent_of_action/main.py:14-21 | exactly six languages have a runtime, each its own command table |
| Harness.DayOf | advent_of_action/main.py:156 | the day is the directory name after its first four characters |
| Harness.SplitDirectory | advent_of_action/main.py:163 | the language is the text before the first "_", the person the rest; a name without "_" fails to unpack (a case the `*_*` glob keeps from arising) |
| Harness.RunOf | advent_of_action/main.py:156-164 | the key of a solution: its day, then the language before the first "_" and the person after it; a name without "_" fails to unpack (a case the `*_*` glob keeps from arising) |
| Harness.SelectedAppends | advent_of_action/main.py:164-167 | a selected solution's run is a new key, so storing its stats appends them and keeps the keys distinct |
| Harness.Visit | advent_of_action/main.py:159-167 | an opted-out solution is skipped; one not yet in the results whose language has a runtime is measured and appended; any other is skipped |
| Harness.VisitPrefix | advent_of_action/main.py:159-167 | one visit keeps the results as a prefix and adds at most one entry |
| Harness.VisitDay | advent_of_action/main.py:159-167 | a day's loop keeps the results as a prefix and adds at most one entry per solution |
| Harness.VisitDays | advent_of_action/main.py:155-167 | the loop over the days keeps the results as a prefix |
| Harness.Main | advent_of_action/main.py:137-169 | an unreadable table in the README or an error in the loops ends `main` with that error; otherwise both went through |
| Harness.RunAll | advent_of_action/main.py:137-169 | the source's nested loops, filling `results` in place, compute `main` |
| Harness.SolutionsStep | advent_of_action/main.py:159-167 | one pass of the inner loop body is one step of the day's visit |
| Harness.VisitOnce | advent_of_action/main.py:164-167 | a visit leaves the results alone or appends the entry measured for that solution |
| Harness.VisitDaysGrows | advent_of_action/main.py:155-167 | old entries keep their place and stats (nothing is measured twice), keys stay distinct, and every new entry was measured in an opted-in solution of a known language |
| Harness.VisitDayGrows | advent_of_action/main.py:159-167 | the same for one day's loop |
| Harness.VisitDaysComplete | advent_of_action/main.py:155-167 | every opted-in solution of a known language has its run among the final results |
| Harness.VisitDayComplete | advent_of_action/main.py:159-167 | the same for one day's loop |
| Harness.MainWrites | advent_of_action/main.py:169 | `main` ends by writing what the loops accumulated |
| Harness.ExtensionMerge | advent_of_action/main.py:116 | merging the old results with what the loops accumulated gives the latter |
| Harness.MainReadsBack | advent_of_action/main.py:137-169 | reading the README back after `main` gives exactly the accumulated results, old ones first |
| Harness.MainAppendsTable | advent_of_action/main.py:122 | a README without the heading gets the full table appended |

## Left out

- `subprocess.run`, `/usr/bin/time` and real-time timeouts are an oracle parameter: process I/O is not modelled.
- The `TIMEOUT_SECONDS` environment variable is the parameter `defaultTimeout`; its absence (`KeyError`) and an unparsable value are not modelled.
- `float()` of the two time fields, their sum and the `:.2f` rendering: floating point is kept as the raw `CpuTime` fields and a rendering parameter `fmt`. A `ValueError` from `float()` on a malformed time field is not modelled.
- `make_input_file` and `get_answers` (gpg decryption, `GPG_PASS`, answers files): external tools and files. The answers are an input of each day.
- Directory globbing and sorting, `.optout` detection and `chdir`: filesystem plumbing. Days and solutions are given in sorted order, each with an opt-out flag. Glob entries that are not directories are not modelled.
- Reading and writing README.md: `write_results` and `main` work on the README's text. The solutions are taken not to change the README while they run.
- `print` diagnostics: logging only.
- `int()` accepts Unicode decimal digits beyond '0'-'9'; `Py.ParseInt` accepts ASCII digits only.
- Harness.RunOf: solution names are an input, so the model keeps the `UnpackMismatch(2, 1)` case of a name without "_"; in the program `day_dir.glob("*_*")` (advent_of_action/main.py:159) only yields names holding "_", so that case never arises there.
- Py.ParseInt: does not model Python's integer string conversion length limit (`sys.get_int_max_str_digits()`, 4300 digits by default), beyond which `int()` of text raises ValueError; the model parses any number of digits.
- Py.ParseIntToString: `int(str(n)) == n` is stated for every integer, but in Python `str(n)` itself raises ValueError for an integer of more than 4300 digits; the kilobytes and exit codes written are far shorter.
- `Report.ParseRender`: the round trip is stated for fields with no "|" at all, and not only for fields with no " | ": a field ending in " |" would also be split wrongly.
- The test suite's expectations that no longer match the code (a `Commands` class, go and haskell runtimes, a `lines` column, last-line stderr parsing) are not modelled; the code is followed.
- The example solutions under tests/ and the `run_benchmarks` module are not part of this model.
