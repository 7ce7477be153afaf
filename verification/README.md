# SentinelForge brute-force detection, modelled in Dafny

SentinelForge reads authentication log lines of the form

    YYYY-MM-DD HH:MM:SS | IP=<digits and dots> | user=<name> | status=SUCCESS|FAIL

and turns each line into an entry with a timestamp, an IP, a user and a status.
From those entries it raises brute-force alerts. This project models the two
pure parts of that pipeline.

- **The brute-force detector** (`detect_bruteforce`). It keeps the FAIL entries
  and groups their timestamps by IP, with IPs in first-seen order. It skips an
  IP with fewer failures than the threshold. Otherwise it sorts the IP's times.
  For each start index in turn, it counts the contiguous run of times at most
  `start + window`. At the first start whose count reaches the threshold, it
  emits one HIGH "Brute Force" alert with the count and the first and last
  counted times, and stops scanning that IP.
- **The line parser** (the per-line loop of `parse_log_file`, the log pattern
  and `_build_log_entry`). Each line is stripped of surrounding whitespace and
  skipped when empty. It is matched against the anchored log pattern. Its
  timestamp is converted with `strptime("%Y-%m-%d %H:%M:%S")`, and the IP, user
  and status are checked. A line that fails any step is skipped, and the others
  keep their order.

Layout, one module per file:

- `basics.dfy` (`Basics`): Option, Result and small sequence helpers.
- `events.dfy` (`Events`): Entry, Alert and Config, plus the shipped
  configuration of 5 failures in 2 minutes.
- `sorting.dfy` (`Sorting`): the ascending sort of one IP's times.
- `window.dfy` (`Window`): the sliding-window scan over one sorted list.
- `detector.dfy` (`Detector`): filtering, grouping, the per-IP alert and the
  whole detector. Each appears as a pure specification and as the loops of
  the source, with the loops proved equal to the specification.
- `detector_laws.dfy` (`DetectorLaws`): properties that span several inputs.
- `detector_scenarios.dfy` (`DetectorScenarios`): the documented examples.
- `text.dfy` (`Text`): whitespace stripping.
- `log_format.dfy` (`LogFormat`): the line layout, as a renderer and as a
  recognizer, proved inverse to each other.
- `calendar.dfy` (`Calendar`): the date-times `strptime` accepts, and their
  conversion to seconds.
- `timestamp.dfy` (`Timestamp`): the `%Y-%m-%d %H:%M:%S` layout, read and
  written.
- `batch.dfy` (`Batch`): item-by-item processing that drops rejected items.
- `parser.dfy` (`Parser`): field conversion, one line, and the line loop.
- `parser_laws.dfy` (`ParserLaws`): properties of the parser.
- `parser_scenarios.dfy` (`ParserScenarios`): the documented examples.

Timestamps are integers. `Calendar.Seconds` counts seconds from
0001-01-01 00:00:00: the day number Python's `toordinal` gives, minus one,
times 86400, plus the time of day. That this is a count of elapsed seconds is proved, not
assumed: `Calendar.NextSecondCounts` shows that one calendar second later
(`Calendar.NextSecond`, carrying across minutes, hours, days, months and
years) the count is one higher, and `Calendar.NextSecondIsNext` shows that
no date-time lies in between. `Calendar.Advance` gives the date-time that
`datetime + timedelta` gives, and fails past
9999-12-31 23:59:59 where Python raises `OverflowError`.
`Calendar.WithinWindow` then shows that testing `ts <= window_start +
timedelta(minutes=m)` is testing that the count of `ts` is at most the count
of `window_start` plus `60 * m`. `Calendar.SecondsOrder` proves that
comparing counts is comparing date-times, so the sort of the detector
behaves as it does on `datetime` values.

The threshold and the window length are a `Config` parameter. The shipped
values are `Events.DefaultConfig`: 5 failures within 2 minutes, from
analyzer/thresholds.py:16-19.

`Detector.Detect` emits its alerts in the order in which each IP first
appears among the FAIL entries, which is the insertion order of the
dictionary that groups the failures (analyzer/detector.py:43-53). The code
checks neither the window length nor the threshold; the model asks only for
a threshold of at least 1 (see "Left out").

## Model

| member | source | states |
|---|---|---|
| Detector.FailedEntries | analyzer/detector.py:45-46 | an entry is kept exactly when it is in the log with status FAIL, and no entries are added |
| Detector.IpsInOrder | analyzer/detector.py:43-53 | the dictionary's keys: exactly the IPs that have a FAIL entry, each listed once, ordered by the position of their first FAIL entry |
| Detector.TimesFor | analyzer/detector.py:45-47 | one IP's list of times: empty exactly when the IP has no failure, and each time is the timestamp of a FAIL entry from that IP |
| Detector.GroupFailures | analyzer/detector.py:43-47 | the grouping loop builds a map whose keys are the first-seen IP order and whose values are each IP's failure times in input order |
| Sorting.Sort | analyzer/detector.py:58 | the sorted list is ascending and a permutation of its input |
| Sorting.SortIgnoresOrder | analyzer/detector.py:58 | two lists with the same times, in any arrival order, sort to the same list |
| Sorting.SortOfSorted | analyzer/detector.py:58 | sorting an already sorted list changes nothing |
| Window.RunLength | analyzer/detector.py:65-70 | the inner counting loop: every counted time is within the limit, the time after the run, if any, is beyond it, and the run stays inside the list |
| Window.RunLengthExact | analyzer/detector.py:65-70 | any count with those two properties is the run length, so the count is the maximal run |
| Window.FirstQualifying | analyzer/detector.py:61-72 | the first start index whose window reaches the threshold; it is None exactly when no start qualifies |
| Window.EarliestUnique | analyzer/detector.py:61-84 | there is only one earliest qualifying start index |
| Window.StartCountsItself | analyzer/detector.py:65-80 | with a non-negative window, the start time counts itself, so the end index `start + count - 1` exists |
| Window.ShortListNeverQualifies | analyzer/detector.py:54-55 | a list shorter than the threshold has no qualifying window, so the early skip loses no alert |
| Window.WindowSpan | analyzer/detector.py:62-80 | in a sorted list, the last counted time lies between the window start and `start + window` |
| Window.ScanWindows | analyzer/detector.py:61-72 | the nested loops find a start exactly when one qualifies; it is the earliest one, and the count is its full run and reaches the threshold |
| Detector.WindowAlert | analyzer/detector.py:73-81 | the alert built for a window has the IP, "Brute Force", HIGH and the configured window. Its attempts are at least the threshold and equal the full run. It starts at the window start and ends at the last counted time, no more than the window later, and both times are in the list |
| Detector.AlertFor | analyzer/detector.py:54-84 | one IP's alert: none below the threshold; otherwise well formed, with start and end times taken from the IP's own failure times |
| Detector.AlertForQualifies | analyzer/detector.py:54-84 | an IP gets an alert exactly when some window of its sorted times qualifies, and the alert reports the earliest such window with its full run |
| Detector.ScanAddress | analyzer/detector.py:54-84 | the per-IP loop body (skip, sort, scan, build) yields exactly that IP's alert |
| Detector.CollectAlerts | analyzer/detector.py:53-84 | the alerts of a list of IPs are well formed, belong to listed IPs and follow their first-seen order |
| Detector.CollectAlertsLookup | analyzer/detector.py:53-84 | looking an IP up in the collected alerts gives that IP's own alert, or none for an IP not listed |
| Detector.Detect | analyzer/detector.py:19-86 | each alert is well formed and is for an IP with FAIL entries. There is at most one alert per IP, in first-seen order. The alert of each IP is the one decided by its own failure times |
| Detector.DetectBruteForce | analyzer/detector.py:40-86 | the source's grouping loop followed by its per-IP loop computes exactly the specified detector |
| DetectorLaws.FailedEntriesConcat | analyzer/detector.py:45-47 | filtering two batches together is filtering each batch |
| DetectorLaws.FailedEntriesIdempotent | analyzer/detector.py:45-47 | filtering the FAIL entries again changes nothing |
| DetectorLaws.OnlyFailuresMatter | analyzer/detector.py:45-47 | the detector gives the same alerts on the FAIL entries alone |
| DetectorLaws.SuccessEntryIgnored | analyzer/detector.py:45-47 | inserting a SUCCESS entry anywhere in the log never changes the alerts |
| DetectorLaws.TimesForConcat | analyzer/detector.py:45-47 | grouping two batches together appends each IP's times from the second batch to those from the first |
| DetectorLaws.SameFailuresSameAlert | analyzer/detector.py:53-58 | an IP's alert depends only on the multiset of its failure times, not on their order or on other entries |
| DetectorLaws.OtherAddressIgnored | analyzer/detector.py:52-53 | an entry from another IP never changes the alert of a given IP |
| DetectorLaws.FewFailuresNoAlert | analyzer/detector.py:54-55 | an IP with fewer FAIL entries than the threshold gets no alert |
| DetectorLaws.AlertTimesAreFailures | analyzer/detector.py:45-80 | an alert's start and end times are timestamps of FAIL entries in the log from the alerted IP |
| DetectorLaws.SingleAddress | analyzer/detector.py:43-86 | when every entry comes from one IP, the output is that IP's alert, if any, and nothing else |
| DetectorScenarios.BurstWithinWindowAlerts | tests/test_bruteforce.py:36-56 | exactly threshold failures whose first and last fall within the window raise one alert counting all of them |
| DetectorScenarios.SpreadOutFailuresNoAlert | tests/test_bruteforce.py:58-73 | failures spaced further apart than the window raise no alert when the threshold is at least two |
| DetectorScenarios.BruteForceIsDetected | tests/test_bruteforce.py:36-56 | with the shipped configuration, five failures 10 s apart give one HIGH "Brute Force" alert with 5 attempts over 40 s |
| DetectorScenarios.NoAlertForNormalBehaviour | tests/test_bruteforce.py:58-73 | five failures spaced by the window plus 10 s give no alert |
| DetectorScenarios.OnlyOneAlertPerAddress | tests/test_bruteforce.py:75-89 | two bursts from one IP ten minutes apart give a single alert, for the first burst |
| DetectorScenarios.SuccessDoesNotCount | tests/test_bruteforce.py:91-115 | four failures and one success inside the window give no alert |
| Text.Strip | analyzer/parser.py:66 | the stripped line has no whitespace at either end and is the raw line with only whitespace removed around it. It is empty exactly when the raw line is all whitespace, using the character set of Python's `str.strip()` |
| Text.StripUnique | analyzer/parser.py:66 | the whitespace around a text with non-space ends is exactly what stripping removes |
| Text.StripIdempotent | analyzer/parser.py:66 | stripping a stripped line changes nothing |
| Text.StripPadded | analyzer/parser.py:66 | extra whitespace around a line does not change what stripping leaves |
| LogFormat.IpSpan | analyzer/parser.py:26 | the greedy IP group: the longest prefix made of digits and dots |
| LogFormat.UserSpan | analyzer/parser.py:27 | the greedy user group: the longest prefix made of `[A-Za-z0-9_-]` |
| LogFormat.After | analyzer/parser.py:24-28 | a literal part of the pattern: present exactly when the text starts with it, and the text is the literal followed by the rest |
| LogFormat.MatchStatus | analyzer/parser.py:28 | the status part matches only the label followed by SUCCESS or FAIL up to the end |
| LogFormat.MatchUser | analyzer/parser.py:27-28 | the user part matches a non-empty user of `[A-Za-z0-9_-]` followed by a status part |
| LogFormat.MatchIp | analyzer/parser.py:26-28 | the IP part matches a non-empty IP of digits and dots followed by the user and status parts |
| LogFormat.MatchBody | analyzer/parser.py:23-29 | what the pattern accepts in a line with no final newline is the rendering of well-formed fields |
| LogFormat.WithoutFinalNewline | analyzer/parser.py:28 | the end anchor `$` also matches before one final newline: the body is the line or the line minus that newline |
| LogFormat.Match | analyzer/parser.py:23-29 | a match yields well-formed fields, and the line is their rendering, possibly followed by one newline |
| LogFormat.MatchRender | analyzer/parser.py:23-29 | the recognizer finds, in the rendering of well-formed fields, exactly those fields |
| LogFormat.MatchExactly | analyzer/parser.py:23-29 | a line matches with given fields if and only if they are well formed and the line is their rendering, optionally with one final newline |
| Timestamp.Format | analyzer/parser.py:121 | the `%Y-%m-%d %H:%M:%S` text of a date-time has the timestamp shape and reads back as the same date-time |
| Timestamp.FormatNumbers | analyzer/parser.py:121 | reading the six numbers of a timestamp-shaped text and writing them back gives the same text |
| Timestamp.Strptime | analyzer/parser.py:120-123 | the conversion gives a valid date-time whose text is the timestamp, and fails exactly when no valid date-time has that text |
| Calendar.SecondsOrder | analyzer/detector.py:58-67 | counting seconds preserves and reflects the chronological order of valid date-times and is one-to-one |
| Calendar.NextSecond | analyzer/detector.py:63 | one second after a valid date-time that is not the last is a valid, later date-time |
| Calendar.NextSecondCounts | analyzer/detector.py:63 | the count of seconds goes up by exactly one from a date-time to the next second, across every calendar boundary |
| Calendar.NextSecondIsNext | analyzer/detector.py:63 | every date-time after `dt` is the next second or after it, so nothing lies in between |
| Calendar.Advance | analyzer/detector.py:50-63 | stepping `k` seconds forward gives a valid date-time whose count is `k` higher, and fails exactly when that count would pass 9999-12-31 23:59:59 |
| Calendar.WithinWindow | analyzer/detector.py:63-67 | a date-time is at or before the end of a window of `m` minutes exactly when its count is at most the start's count plus `60 * m` |
| Parser.BuildEntry | analyzer/parser.py:94-140 | a built entry carries the matched IP, user and status, all of which passed their checks. Each error names the check that failed |
| Parser.BuildEntryExactly | analyzer/parser.py:119-140 | with a valid date-time whose text is the timestamp, the conversion succeeds exactly when the IP and user are non-empty and the status is one of the two words, and yields that date-time's entry |
| Parser.BuildEntryTimestampError | analyzer/parser.py:120-123 | the timestamp error happens exactly when no valid date-time has the timestamp's text |
| Parser.FormatOneToOne | analyzer/parser.py:121 | two valid date-times with the same text are equal, so the converted date-time is unique |
| Parser.ParseLine | analyzer/parser.py:66-70 | a blank or all-whitespace line yields no entry |
| Parser.ParseLineShape | analyzer/parser.py:26-27 | a parsed entry has a non-empty IP of digits and dots and a non-empty user of `[A-Za-z0-9_-]` |
| Parser.ParseLogLines | analyzer/parser.py:61-88 | the strip, skip and append loop computes exactly the line-by-line specification |
| ParserLaws.RenderTrimmed | analyzer/parser.py:66 | a well-formed line has no whitespace at its ends, so stripping leaves it alone |
| ParserLaws.ParseLineRendered | analyzer/parser.py:66-83 | a well-formed line with a valid timestamp, padded with any whitespace, parses to its entry |
| ParserLaws.ParseStrippedRendered | analyzer/parser.py:72-83 | a well-formed line with a valid timestamp passes the match and the conversion |
| ParserLaws.StrippedMatchIsRender | analyzer/parser.py:72-75 | a stripped line that matches is exactly the rendering of its fields |
| ParserLaws.ParseLineSource | analyzer/parser.py:66-83 | every accepted line, once stripped, is the rendering of well-formed fields with a valid date-time, and its entry is theirs |
| ParserLaws.MatchedFieldsFailOnlyOnTimestamp | analyzer/parser.py:125-133 | after a match the IP, user and status checks never fire; only the timestamp can be rejected |
| ParserLaws.ParseLinesConcat | analyzer/parser.py:65-83 | parsing a log in two parts parses each part; no line affects another |
| ParserLaws.BadLineSkipped | analyzer/parser.py:72-81 | a line that fails to parse is skipped and the lines around it are parsed as usual |
| ParserLaws.BlankLineSkipped | analyzer/parser.py:68-70 | a blank line is skipped wherever it stands |
| ParserLaws.ParseLinesAccepted | analyzer/parser.py:65-83 | the entries are, one for one and in increasing line order, the entries of the lines that parse, and no such line is missed |
| ParserLaws.ParsedEntriesShape | analyzer/parser.py:126-130 | every produced entry has a non-empty IP of digits and dots and a non-empty user |
| ParserLaws.ParseWrittenLine | analyzer/parser.py:65-66 | a file line, which is a rendering followed by a newline, parses to its entry |
| ParserLaws.ParseLogRoundTrip | analyzer/parser.py:61-88 | a log written from well-formed fields with valid timestamps, one line each, reads back as exactly their entries, in order |
| ParserScenarios.ValidLinesAreParsed | tests/test_parser.py:34-51 | the two valid lines give two entries carrying their IP, user and status |
| ParserScenarios.AdminFailParses | tests/test_parser.py:53-66 | the sample line's timestamp becomes the date-time 2026-01-18 10:32:11 |
| ParserScenarios.ShortLineRejected | tests/test_parser.py:73 | "INVALID LOG ENTRY" yields no entry |
| ParserScenarios.MissingTimeRejected | tests/test_parser.py:75 | a line without a time or user yields no entry |
| ParserScenarios.MalformedLinesAreSkipped | tests/test_parser.py:68-85 | of two malformed lines and one valid line, only the valid line's entry is produced |
| ParserScenarios.EmptyFileGivesNothing | tests/test_parser.py:87-96 | an empty file gives no entries |
| ParserScenarios.EmptyLinesAreIgnored | tests/test_parser.py:98-113 | an empty line and a line of spaces are skipped before a valid line |
| Batch.KeepConcat | analyzer/parser.py:65-83 | item-by-item processing of two batches is the processing of each |
| Batch.KeepAtKept | analyzer/parser.py:65-83 | the kept results are exactly the results at the accepted positions |
| Batch.KeptPositions | analyzer/parser.py:65-83 | the accepted positions are strictly increasing and include every accepted item |

## Left out

- Opening the log file, iterating the file handle and re-raising
  `FileNotFoundError` (analyzer/parser.py:63-64, 85-86) are I/O. The input is
  the sequence of the file's lines as read, each normally ending in its
  newline (the last line may lack one).
- `line_number` from `enumerate` is never used, so it is not modelled.
- analyzer/reporter.py and main.py (JSON output, ISO-8601 formatting,
  console printing, wiring) are not part of this model.
- analyzer/thresholds.py is not modelled as a file. Its values are the
  `Config` parameter, and `DefaultConfig` holds the shipped values.
  `SEVERITY_LOW` and `SEVERITY_MEDIUM` are never produced, so they are left out.
- `Events.Config.Valid`: the detector members require a threshold of at least
  1. The shipped threshold is 5. With a threshold of 0 or less and a negative
  window, the source would build an alert from `timestamps[-1]`, which is
  Python's negative indexing, and that case is not modelled.
- Detector.Detect does not model the `OverflowError` that `datetime +
  timedelta` raises for a failure in the last window-length of year 9999.
  `Calendar.Advance` models that failure, but the detector works on
  unbounded integer counts and never fails.
- The `isinstance` checks of `_build_log_entry` (analyzer/parser.py:126-130)
  always pass on strings, so they are not modelled. Only the emptiness checks are.
- Parser.BuildEntry requires a timestamp of the shape `DDDD-DD-DD DD:DD:DD`.
  `strptime` alone would also accept layouts with fewer digits, but after a
  match the timestamp group always has this shape, so every call from the
  line loop meets the requirement. Timestamp.Strptime has the same
  requirement for the same reason.
- The pattern's `\d` and `[A-Za-z0-9_\-]`: the model uses ASCII digits only.
  Python's `\d` on text also matches other Unicode decimal digits (and
  `strptime` reads them). Lines with such digits are not modelled.
- Status is an enumeration of the two words. The source keeps the status
  text, which after a match is always "SUCCESS" or "FAIL".
- Python's sort is stable, but ties between equal integer times cannot be
  told apart, so the model states only the sorted permutation.
