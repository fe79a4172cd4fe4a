# Recent-error filter of the Apache error-log check

The agent's test suite includes a check, `test_errors_in_logs`. It reads
`/var/log/apache2/error.log` from the target machine and fails if the log
holds an error written within the last `LOG_CHECK_MINUTES` minutes. This
project models the part of that check that decides which lines count:

- the log text is split with `str.splitlines()`;
- a line is a candidate when its lower-cased text contains `[error]`;
- its timestamp string is the text before its first `]`, with `[` stripped
  from both ends;
- that string is parsed with
  `datetime.strptime(s, '%a %b %d %H:%M:%S.%f %Y')`, and any exception skips
  the line;
- the line is collected when its time is at or after the cutoff;
- the check passes exactly when nothing was collected.

The model has these modules:

- `Wrappers`: the `Option` type.
- `LogText` (`text.dfy`): models `splitlines`, `lower` and `in`.
- `Timestamps` (`timestamp.dfy`): a naive `datetime`, its constructor's range
  checks, its `>=` comparison, and the proleptic Gregorian calendar. The
  calendar is used to prove that the comparison is the order of instants.
- `Strptime` (`strptime.dfy`): models the regular expression Python builds
  from the format. It reads case-insensitive names, `\s+` separators, 1–2
  digit fields with their ranges, a 1–6 digit fraction padded on the right
  and a 4-digit year at the very end. The `datetime` checks follow. The
  module also has the writer `Format` (as `strftime`), used to state the
  round trip. It also has `Spell`, which writes the fields in every spelling
  the expression admits: names in any case, any whitespace runs, 1- or
  2-digit fields, a fraction of 0–6 digits, and any text after the year.
  Every text the parser accepts is one of these spellings.
- `Filtering` (`filtering.dfy`): the "append when the test holds" loop shape
  as a specification `Filter`, with its order, selection and idempotence
  lemmas.
- `ErrorScan` (`error_scan.dfy`) has three parts:
  - the prefix extraction (`split`/`strip`);
  - `ExamineLine`, one iteration of the loop body, and `ScanLog`, the loop,
    proved against the specification `RecentErrors`;
  - `ErrorsInLogs`, the final assertion.

Line 64 does not take the text between the first `[` and the first `]`.
It takes everything before the first `]` and strips `[` from both ends of
it. The model does the same. Because of this:

- a line that lacks the opening bracket still yields its timestamp
  (`OpenBracketOptional`);
- extra leading brackets are ignored (`ExtractPrefixOfBracketed`);
- a line whose first `]` closes the marker yields the text up to the
  marker, e.g. "no brackets here [error". That text does not parse, so the
  line is skipped (`NoBracketsScenario`).

The marker test looks for the exact text `[error]` after lowering. A line
whose level is tagged with a module, such as `[core:error]`, does not hold
that text, so it is never a candidate (`MarkerNecessary`). The model keeps
this behaviour.

## Model

| member | source | states |
|---|---|---|
| LogText.SplitLines | agent/tests/test_main.py:60 | every line is free of line-break characters; the text is empty exactly when there are no lines |
| LogText.SplitLinesLast | agent/tests/test_main.py:60 | a non-empty text without a break character is one line, itself |
| LogText.SplitLinesBreak | agent/tests/test_main.py:60 | a line ended by any single break character (`\n`, `\r` not before `\n`, `\v`, `\f`, `\x1c`–`\x1e`, `\x85`, U+2028, U+2029) is the first line, the break is dropped and the rest is split on its own |
| LogText.SplitLinesCrLf | agent/tests/test_main.py:60 | "\r\n" ends a line as one break: the line is followed by the lines of the rest, with no empty line between |
| LogText.SplitJoinLines | agent/tests/test_main.py:60 | splitting a text written as lines each ended by "\n" gives back exactly those lines |
| LogText.ContainsIffOccurs | agent/tests/test_main.py:62 | the substring test holds exactly when the pattern occurs at some offset (both directions) |
| LogText.OccursInside | agent/tests/test_main.py:62 | a pattern is found in any text that has it somewhere inside |
| LogText.LowerConcat | agent/tests/test_main.py:62 | lowering a concatenation lowers each part |
| LogText.LowerUpper | agent/tests/test_main.py:62 | the marker test ignores case: upper-casing first changes nothing after lowering |
| ErrorScan.MarkerAnyCase | agent/tests/test_main.py:62 | a line holding "[ERROR]", "[Error]" or any other spelling whose lower case is "[error]" is a candidate |
| ErrorScan.MarkerSpellings | agent/tests/test_main.py:62 | the upper-case, capitalised and lower-case spellings all lower to the marker |
| ErrorScan.MarkerNecessary | agent/tests/test_main.py:62 | a line without the marker is never collected, whatever its timestamp |
| ErrorScan.BeforeFirst | agent/tests/test_main.py:64 | `split(']')[0]` is the longest prefix without `]`, ending just before the first `]` if there is one |
| ErrorScan.TrimStartSpec | agent/tests/test_main.py:64 | `lstrip` removes a run of the character from the start and leaves a string not starting with it |
| ErrorScan.TrimEndSpec | agent/tests/test_main.py:64 | `rstrip` removes a run of the character from the end and leaves a string not ending with it |
| ErrorScan.StripSpec | agent/tests/test_main.py:64 | `strip('[')` leaves no `[` at either end, and padding the result back with runs of `[` gives the input |
| ErrorScan.StripPadded | agent/tests/test_main.py:64 | conversely, stripping a string padded with `[` on both sides returns it when it has no `[` at its ends |
| ErrorScan.ExtractPrefixSpec | agent/tests/test_main.py:64 | the timestamp string has no `]` and no `[` at its ends, and the text before the first `]` is it padded with `[` |
| ErrorScan.ExtractPrefixOfBracketed | agent/tests/test_main.py:64 | a line "[…[ts[…" followed by `]` or the end yields exactly `ts` |
| ErrorScan.BracketedLineTime | agent/tests/test_main.py:64-65 | a line "[ts]…" whose `ts` has no bracket gets the time `strptime` makes of `ts` |
| ErrorScan.OpenBracketOptional | agent/tests/test_main.py:62-67 | a line "<t>] [error] …" without the opening bracket is collected exactly when `t` is at or after the cutoff |
| Strptime.IndexOf | agent/tests/test_main.py:65 | a name found in the locale table is at the reported position; a name not found is not in the table |
| Strptime.ParseTimestamp | agent/tests/test_main.py:65 | any datetime `strptime` returns passes the `datetime` range checks (year 1–9999, day within its month, second below 60) |
| Strptime.ParseRendered | agent/tests/test_main.py:65 | text written in the format parses exactly when its fields name a datetime that exists, and then to that datetime |
| Strptime.ParseFormat | agent/tests/test_main.py:65 | `strptime` inverts `strftime` in this format for every valid datetime |
| Strptime.MatchSpelled | agent/tests/test_main.py:65 | the regex stage reads back the fields from any admitted spelling exactly when they are within the pattern's ranges (hour ≤ 23, minute ≤ 59, second ≤ 61, day 1–31), the fraction is there and nothing follows the year |
| Strptime.ParseSpelled | agent/tests/test_main.py:65 | `strptime` on any spelling (any-case names, whitespace runs, 1-digit fields, a short fraction) gives the datetime the fields name exactly when it exists, ".%f" is present and nothing follows the year; hour 24, day 32, a missing fraction or trailing text make it fail |
| Strptime.ParsedIsSpelled | agent/tests/test_main.py:65 | conversely, every text `strptime` accepts is an admitted spelling, with the fraction and nothing after the year, of the datetime it returns; so a text with the day, the seconds or the year missing, or a field doubled, never parses |
| Strptime.FractionTenths | agent/tests/test_main.py:65 | a one-digit fraction is padded on the right: ".5" is 500000 microseconds |
| Strptime.UnknownMonth | agent/tests/test_main.py:65 | text whose month is not one of the twelve names fails, whatever follows |
| Strptime.RenderIsSpelled | agent/tests/test_main.py:65 | `strftime`'s text is one admitted spelling: capitalised names, single spaces, full widths, nothing after the year |
| Strptime.MatchRendered | agent/tests/test_main.py:65 | the regex stage reads back every field written in the format, including out-of-calendar days and second 60 or 61 |
| Strptime.WeekdayNotChecked | agent/tests/test_main.py:65 | the weekday name is read but not compared with the date: replacing it with any other weekday name gives the same result |
| Strptime.UnknownWeekday | agent/tests/test_main.py:65 | text that does not open with a weekday name never parses |
| Strptime.DocumentedExample | agent/tests/test_main.py:61-65 | "Wed Sep 09 12:34:56.789012 2025" parses to 2025-09-09 12:34:56.789012, although that date is a Tuesday |
| Timestamps.OrderMatchesMicros | agent/tests/test_main.py:66 | for datetimes that exist, the field-wise `>=` agrees with the order of instants, and equality with equal instants |
| Timestamps.LessEqTransitive | agent/tests/test_main.py:66 | the comparison is transitive |
| ErrorScan.CutoffInclusive | agent/tests/test_main.py:66-67 | a marked, parsable line is collected exactly when its instant is not before the cutoff: at the cutoff it is kept, one microsecond earlier it is not |
| ErrorScan.ExamineLine | agent/tests/test_main.py:62-69 | for a cutoff that exists, the loop body answers true exactly when the line carries the marker, its prefix parses and its instant is not before the cutoff's instant |
| ErrorScan.ScanLog | agent/tests/test_main.py:59-69 | the collected list is the recent error lines of the log's lines, in order |
| ErrorScan.RecentErrorsSnoc | agent/tests/test_main.py:59-67 | one more line examined adds that line at the end exactly when it is a recent error |
| ErrorScan.ErrorsInLogs | agent/tests/test_main.py:70 | the check passes exactly when no line of the log is a marked, parsable, recent one |
| ErrorScan.RecentErrorsEmptyIff | agent/tests/test_main.py:66-70 | nothing is collected exactly when no line is a recent error (both directions) |
| ErrorScan.RecentErrorsSelects | agent/tests/test_main.py:60-67 | the result is a subsequence of the lines, unchanged and in order, taken at exactly the positions of recent error lines |
| ErrorScan.RecentErrorsSound | agent/tests/test_main.py:62-67 | every collected line is in the log, carries the marker and has a parsable time at or after the cutoff |
| ErrorScan.RecentErrorsSingle | agent/tests/test_main.py:60-67 | a single line is collected exactly when it is a recent error |
| ErrorScan.SkipUnparsable | agent/tests/test_main.py:63-69 | a line whose timestamp fails to parse adds nothing, and the lines before and after it are collected as if it were absent |
| ErrorScan.RecentErrorsIdempotent | agent/tests/test_main.py:60-67 | filtering the collected lines again changes nothing |
| ErrorScan.LaterCutoff | agent/tests/test_main.py:58-67 | a later cutoff collects exactly the lines of an earlier cutoff's result that pass the later one |
| ErrorScan.ErrorLineTime | agent/tests/test_main.py:61-65 | a line "[<t in the format>] [error] …" yields time `t` |
| ErrorScan.ErrorLineMarked | agent/tests/test_main.py:61-62 | such a line carries the marker |
| ErrorScan.ErrorLineCollected | agent/tests/test_main.py:61-67 | such a line is collected exactly when `t` is at or after the cutoff |
| ErrorScan.StaleThenRecent | agent/tests/test_main.py:59-67 | of a stale error line followed by a recent one, only the recent one is collected |
| ErrorScan.DiskFullScenarios | agent/tests/test_main.py:61-67 | an error at 12:34:56 is collected with a 12:30 cutoff and with a cutoff at that instant, and not with a 12:40 cutoff; this holds both for the line written with its true weekday and for the quoted line "[Wed Sep 09 12:34:56.000000 2025] [error] disk full" |
| ErrorScan.DiskFullLineCollected | agent/tests/test_main.py:61-67 | the quoted line, whose "Wed" does not match the date (a Tuesday), has the time 12:34:56 and is collected exactly when that is at or after the cutoff |
| ErrorScan.NoBracketsScenario | agent/tests/test_main.py:62-69 | "no brackets here [error] at all" is a candidate whose prefix is "no brackets here [error", which does not parse, so it is not collected |
| Filtering.FilterSelects | agent/tests/test_main.py:59-67 | the appended list embeds in the input in order, at exactly the positions that pass |
| Filtering.FilterSound | agent/tests/test_main.py:67 | every appended element is from the input and passed the test |
| Filtering.FilterEmptyIff | agent/tests/test_main.py:70 | the list stays empty exactly when no element passes |
| Filtering.FilterAppend | agent/tests/test_main.py:60-67 | filtering a concatenation filters each part |
| Filtering.FilterIdempotent | agent/tests/test_main.py:60-67 | filtering twice is filtering once |
| Filtering.FilterStricter | agent/tests/test_main.py:66-67 | a stricter test keeps what it keeps of the looser test's result |

## Left out

- The SSH connection, its settings and `run_cmd` (lines 8-29): network I/O outside the filter.
- Reading the log over SFTP, the `IOError` skip and the UTF-8 decoding with errors ignored (lines 48-55): I/O. The model starts from the decoded text.
- `datetime.now()` and `now - timedelta(minutes=LOG_CHECK_MINUTES)` (lines 57-58): they read the clock. The cutoff is a parameter of `ScanLog` and `ErrorsInLogs`. `LaterCutoff` and `CutoffInclusive` state how the result depends on it.
- The message text of the failing assertion on line 70: only whether the check passes is modelled.
- The other tests of the file (`test_running_web_server`, `test_index_404`, `test_tar`, lines 32-98): they do not take part in the filter.
- LogText.Lower: only ASCII letters are lowered. Python's `str.lower()` also lowers other letters, but none of them lowers to a character of "[error]", so the marker test is the same.
- Strptime.IsDigit: only ASCII digits are accepted. Python's `\d` in a str pattern also accepts other Unicode decimal digits.
- Strptime.Name: names are matched with ASCII case folding against the C-locale English abbreviations. Python's IGNORECASE also equates a few non-ASCII letters with ASCII ones (such as the long s `ſ` with `s`, as in "ſun"). Such a name matches the expression, but it does not lower to a table entry, so the lookup raises and the line is skipped, which is what the model does too. Other locales use other names.
- Strptime.ParseTimestamp: every exception `strptime` raises becomes `None`. The kind of exception is not kept, because the source catches all of them alike.
- Line breaks: `splitlines` is modelled on the Unicode break characters Python uses. The bytes the decoder drops are left out with the decoding.
