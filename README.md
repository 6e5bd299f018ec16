# Daily metrics logger — a Dafny model

The daily metrics logger is a command-line program. Each run asks the user for
the day's well-being metrics and appends them as one row to `daily_metrics.csv`.
These are the sleep hours and sleep quality, six ratings from 1 to 10, whether
they worked out, and free-text remarks. Before asking anything, it scans the
existing file and derives three facts from it:

- whether this is the first entry of the day (only then are the sleep
  questions asked);
- the day count since the first-ever entry;
- whether a workout was already logged today (then the workout question is
  skipped and the workout is recorded as done).

This project models that logic and proves what it guarantees.

| file | module | what it holds |
|---|---|---|
| `wrappers.dfy` | `Wrappers` | `Option` and `Result` (the latter usable with `:-`) |
| `text.dfy` | `Text` | Rust's `str::trim`, `eq_ignore_ascii_case`, decimal rendering and `str::parse::<u8>` |
| `schema.dfy` | `Schema` | `LogEntry`, the 12-column header, how an entry becomes a row, and how a workout cell is read back |
| `storage.dfy` | `Storage` | the data file as a class (`present`, `lines`) and `AppendToCsv`, the only operation that changes it |
| `scanner.dfy` | `Scanner` | `read_csv_info`: the specification `Scan` (a left fold), the loop `ReadCsvInfo` proved equal to it, and what the summary means |
| `session.dfy` | `Session` | the derivations in `main`, `ask_rating`, the whole session (`CollectEntry`, `LogToday`) and properties across runs |

Modelling choices:

- **Dates** are integer day numbers, so `today - first + 1` is exact.
- **Parsing.** RFC 3339 parsing followed by conversion to the UTC date is a
  parameter `parse: string -> Option<Date>`. The round-trip lemmas need only
  one fact about it (`Rfc3339Shaped`): text it accepts starts with a digit,
  as every RFC 3339 date-time does (section 5.6 of RFC 3339).
- **The file** is a sequence of records. A record is either the cells of one
  line or `None` for a line the CSV reader reports as corrupted. The reader is
  built with `has_headers(true)`, so the first line is always consumed as the
  header and the data records are `lines[1..]`.
- **Prompts** are given as replies. A reply is either an answer or a
  cancellation. A rating prompt is given as the sequence of lines the user
  submits. The prompt returns the first line its validator accepts. If every
  submitted line is rejected, the user aborted.

## Model

| member | source | states |
|---|---|---|
| Text.TrimSplit | src/main.rs:261 | every string is its trimmed core between two runs of whitespace, and the core neither starts nor ends with whitespace |
| Text.TrimOfPadded | src/main.rs:293 | trimming removes exactly the surrounding whitespace, so it recovers any core that does not itself start or end with whitespace |
| Text.TrimKeepsFirst | src/main.rs:261 | a string that does not start with whitespace keeps its first character when trimmed |
| Text.ParseU8 | src/main.rs:213 | a successful `u8` parse gives a value in 0..=255 from non-empty text |
| Text.NatToDecimal | src/main.rs:352 | a number is written as a non-empty run of digits without leading zeros |
| Text.DecimalRoundTrip | src/main.rs:352 | reading back the digits written for `n` gives `n` |
| Text.ParseU8Decimal | src/main.rs:213 | the digits written for any byte value parse back to that value |
| Schema.EntryRow | src/main.rs:15-29 | an entry's row has as many cells as the header; the timestamp is in column 0; the workout cell reads back as the entry's workout flag |
| Schema.HeaderLayout | src/main.rs:334-347 | the header has 12 names; `timestamp` is at index 0 and survives trimming; `workout_today` is at index 10, the scanner's `WORKOUT_COLUMN_INDEX` |
| Schema.BoolCellRoundTrip | src/main.rs:293 | the cell written for a boolean reads as "true" exactly when the boolean is true |
| Schema.TrueCellPadded | src/main.rs:293 | any ASCII-case variant of "true", with any surrounding whitespace, reads as true |
| Schema.TrueCellShape | src/main.rs:293 | a cell reads as true only if it is an ASCII-case variant of "true" surrounded by whitespace |
| Storage.AppendedLines | src/main.rs:318-354 | appending keeps every existing line unchanged, adds the header only when the file did not exist, and ends with the entry's row |
| Storage.AppendToMissingFile | src/main.rs:331-352 | appending to a missing file yields exactly the header followed by one row |
| Storage.DataFile.AppendToCsv | src/main.rs:318-354 | after the append the file exists and its lines are exactly `AppendedLines` of the old state |
| Scanner.ReadCsvInfo | src/main.rs:231-315 | the loop's result equals the fold `Scan` over the data records, and is `NO_HISTORY` when the file does not exist |
| Scanner.ScanNoneIff | src/main.rs:282-287 | each date is absent exactly when no record is a valid data row |
| Scanner.FirstWitness | src/main.rs:283-285 | the first date is the date of some valid row |
| Scanner.FirstIsLowerBound | src/main.rs:283-285 | no valid row is dated before the first date |
| Scanner.LastWitness | src/main.rs:287 | the last date is the date of a valid row with no valid row after it |
| Scanner.ScanDates | src/main.rs:282-287 | the first date is the minimum over the valid rows; the last date is that of the last valid row in file order; both are absent exactly when there is no valid row |
| Scanner.WorkoutRowSetsFlag | src/main.rs:290-297 | a valid row dated today whose column 10 reads as true sets the flag |
| Scanner.WorkoutWitness | src/main.rs:290-297 | the flag is set only by such a row |
| Scanner.ScanWorkout | src/main.rs:290-300 | the workout flag is set if and only if some valid row dated today has a column 10 reading "true" (ASCII case ignored, whitespace trimmed) |
| Scanner.FirstNotAfterLast | src/main.rs:282-287 | both dates are present together, and first ≤ last |
| Scanner.ScanFromConcat | src/main.rs:249-307 | scanning a concatenation continues the scan of the first part |
| Scanner.SkippedRecordInvisible | src/main.rs:250-305 | inserting a corrupted record, a record without a first cell, a header row read as data, or a row whose timestamp does not parse anywhere leaves the summary unchanged |
| Scanner.HeaderRowInvisible | src/main.rs:259-264 | the header row read as data does not change the summary |
| Scanner.ParsedCellIsNotHeader | src/main.rs:261-267 | a first cell that parses as a date-time is never taken for the header literal |
| Scanner.DataRecordsAfterAppend | src/main.rs:240-242 | after an append to a missing or non-empty file, the reader yields the old data records followed by the entry's row |
| Scanner.RescanAfterAppend | src/main.rs:318-354 | write then rescan: the appended entry's day becomes the last date, the first date becomes the smaller of the old first date and that day, and the flag is also set when that day is today and the entry records a workout |
| Scanner.ScanAppended | src/main.rs:282-300 | the summary after one more valid row of day `d` |
| Scanner.EntryRowScanned | src/main.rs:259-300 | an entry's row is read back as a valid row of the entry's day, carrying its workout flag |
| Scanner.EmptyExistingFileHidesEntry | src/main.rs:238-242 | a file that exists but is empty gets no header, so the first entry written to it is consumed as the header and the rescan sees no history |
| Session.Ask | src/main.rs:167-171 | a prompt yields the answer, or `DialogCancelled` when aborted |
| Session.ValidateRating | src/main.rs:212-222 | a line is accepted if and only if it parses as a `u8` in 1..=10; text that is not a `u8` gets "Please enter a valid number", a `u8` outside the range gets "Please enter a number between 1 and 10" |
| Session.RatingTextAccepted | src/main.rs:212-222 | an optional '+', any run of '0's and the decimal text of a number from 1 to 10 is accepted |
| Session.AcceptedRatingShape | src/main.rs:212-222 | every accepted line has exactly that shape, so with `RatingTextAccepted` it characterises the accepted lines |
| Session.ValidateRatingAccepts | src/main.rs:212-221 | "1", "10", "+7" and "007" are accepted |
| Session.ValidateRatingOutOfRange | src/main.rs:212-221 | "0", "11" and "255" are rejected as out of range, with the source's message |
| Session.ValidateRatingNotANumber | src/main.rs:212-221 | "256", " 7", "-1", "+" and "" are rejected as not a number, with the source's message |
| Session.ValidateRatingDecimal | src/main.rs:212-221 | the decimal text of any natural number is accepted if and only if the number is in 1..=10 |
| Session.FirstAccepted | src/main.rs:210-223 | the prompt stops at the first line the validator accepts; every earlier line was rejected |
| Session.ParseRating | src/main.rs:226-227 | a line the validator accepted always reads as a `u8` in 1..=10, so the `IoError` mapping is never taken; text that is not a `u8` would become `IoError` |
| Session.AskRating | src/main.rs:209-227 | a rating is returned if and only if some submitted line is accepted; it is in 1..=10 and is the value of the first accepted line; otherwise the result is `DialogCancelled` |
| Session.IsFirstEntryToday | src/main.rs:68-71 | a run is the first entry of the day exactly when the last entry date is not today (absent counts as not today) |
| Session.FirstEntryTodayIff | src/main.rs:68-71 | over a scanned history: the first entry of the day exactly when there is no valid row, or the last valid row in file order is dated another day |
| Session.DayCount | src/main.rs:73-77 | day 1 when there is no history, else `today - first + 1`, which is ≥ 1 when first ≤ today |
| Session.AskSleep | src/main.rs:88-135 | a sleep value is asked for (and present) exactly on the first entry of the day; otherwise it is absent and nothing is asked |
| Session.CollectEntry | src/main.rs:64-189 | the session succeeds if and only if every prompt it asks is answered, and otherwise fails with `DialogCancelled`. On success the entry carries `now` and the day count; its sleep fields are present if and only if this is the first entry of the day (no last date, or a last date other than today); each rating is the value `AskRating` returns for its prompt, in 1..=10; on the first entry of the day the sleep fields hold the answers given; workout = already-logged flag or the user's yes; and the remarks are those given |
| Session.LogToday | src/main.rs:59-206 | the run returns `CollectEntry` of the scanned file; on success the file is exactly `AppendedLines` of the old file; on cancellation it is untouched |
| Session.FirstRunFacts | src/main.rs:67-77 | without a file: no history, first entry of the day, day 1 |
| Session.DayCountAtLeastOne | src/main.rs:73-77 | the day count is ≥ 1 whenever no history row is dated after today |
| Session.UnaskedPromptsIgnored | src/main.rs:89-165 | replies to prompts that are not asked (sleep on a follow-up entry, workout once it is logged) have no effect |
| Session.SecondEntrySameDay | src/main.rs:64-189 | after a run appends today's entry, the next run the same day is not the first of the day, asks no sleep questions, has the same day count, and keeps a logged workout |
| Session.RescanAfterTodaysEntry | src/main.rs:64-77 | after appending an entry stamped today whose day count was derived from the history, the rescan finds today as the last date, the same day count, and the entry's workout |
| Session.SingleRowFile | src/main.rs:249-307 | a header followed by one valid row summarises to that row's date as both first and last, with that row's workout flag |
| Session.YesterdayScenario | src/main.rs:67-77 | one row dated yesterday: the run is the first of today and day 2 |
| Session.WorkoutConfirmedScenario | src/main.rs:144-165 | one row dated today with workout "true": no sleep questions, and the entry records a workout whatever the user would have answered |

## Left out

- Terminal output is not modelled: the colours, theme, banners and `eprintln!` warnings. It changes no state.
- Dates and the clock are parameters. The chrono date-time parsing is one, and so is the current time: `today` is a single parameter and `now` is the entry's timestamp text. The source reads the clock three times (lines 65, 173 and 236). A run that spans midnight, or a `now` whose date differs from `today`, is not modelled.
- Session.AskSleep: sleep values are carried as the answered text. The `f32` parsing and the validators of the two sleep prompts are not modelled because they use floating point. This includes the hours validator at line 98, which checks only the upper bound, so negative hours pass. The later `.parse::<f32>()?` is likewise not modelled, nor is how `serde` renders an `f32`.
- Prompt defaults ("8" and "7.5"): they are part of the answer the reply stands for.
- File I/O failures are not modelled (opening, writing, flushing, `CsvError`), and neither is `DateParseError`, which the code never raises.
- CSV tokenisation, quoting and escaping are not modelled. The reader's error for a record whose field count differs from the first record's is one of the `None` (corrupted) records. The model does not decide which lines the reader rejects. A corrupted first line is consumed as the header like any other.
- Storage.AppendedLines: the writer is built with `has_headers(!file_exists)` and also writes the header row by hand on a new file. Whether `serialize` then emits a second header row depends on the CSV library's header bookkeeping, which is not modelled: the model writes exactly one header. A second header row would be skipped by the scanner (`Scanner.HeaderRowInvisible`).
- Schema.EntryRow: the cells of `day_count` and the ratings are written as plain decimal text. Only the timestamp and workout cells are read back by the scanner.
- Session.DayCount: `day_count` is an `i64` in the source; the model uses unbounded integers (overflow would need dates millions of years apart).
- `GOAL_DAYS` (30) is only displayed, so it is not modelled.
- Whether the dialogue library trims the typed line before validating it is not modelled; the validator sees the line as given.
