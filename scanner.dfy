/**
 * The history scanner: one left-to-right pass over the records of the data
 * file that finds the earliest date, the date of the last valid row, and
 * whether a workout was already logged today. Malformed records are skipped,
 * never fatal.
 */
module Scanner {
  import opened Wrappers
  import opened Text
  import opened Schema
  import opened Storage

  /** A calendar date, as a day number: comparison and subtraction are exact. */
  type Date = int

  /**
   * RFC 3339 date-time parsing (section 5.6 of RFC 3339) followed by
   * conversion to the UTC calendar date; `None` when the text does not parse.
   */
  type Parser = string -> Option<Date>

  /**
   * Every RFC 3339 date-time starts with the four digits of the year
   * (section 5.6 of RFC 3339), so a parser only accepts text that starts with
   * a digit.
   */
  ghost predicate Rfc3339Shaped(parse: Parser) {
    forall s :: parse(s).Some? ==> |s| > 0 && IsDigit(s[0])
  }

  /** The scan summary. */
  datatype CsvInfo = CsvInfo(firstEntryDate: Option<Date>, lastEntryDate: Option<Date>, workoutLoggedToday: bool)

  /** The summary of a file with no valid rows, or of no file at all. */
  const NO_HISTORY: CsvInfo := CsvInfo(None, None, false)

  /**
   * The date a record contributes to the summary: `None` for a corrupted
   * record, a record without a first cell, a header row read as data, and a
   * first cell that does not parse.
   */
  function RowDate(rec: Record, parse: Parser): Option<Date> {
    match rec
    case None => None
    case Some(row) => if |row| == 0 || Trim(row[0]) == TIMESTAMP_HEADER then None else parse(row[0])
  }

  /** A valid row dated `today` whose workout column reads as true. */
  predicate LogsWorkoutOn(rec: Record, today: Date, parse: Parser) {
    && RowDate(rec, parse) == Some(today)
    && rec.Some?
    && |rec.value| > WORKOUT_COLUMN_INDEX
    && ReadsAsTrue(rec.value[WORKOUT_COLUMN_INDEX])
  }

  /**
   * One iteration of the scan. A skipped record leaves the summary unchanged;
   * a valid one becomes the last date, lowers the first date if earlier, and
   * sets the workout flag if it logs a workout today.
   */
  function Step(info: CsvInfo, rec: Record, today: Date, parse: Parser): CsvInfo {
    match RowDate(rec, parse)
    case None => info
    case Some(current) =>
      var first := if info.firstEntryDate.None? || current < info.firstEntryDate.value
                   then Some(current) else info.firstEntryDate;
      CsvInfo(first, Some(current), info.workoutLoggedToday || LogsWorkoutOn(rec, today, parse))
  }

  /** The scan of `rs` started from the summary `info`. */
  function ScanFrom(info: CsvInfo, rs: seq<Record>, today: Date, parse: Parser): CsvInfo
    decreases |rs|
  {
    if rs == [] then info
    else Step(ScanFrom(info, rs[..|rs| - 1], today, parse), rs[|rs| - 1], today, parse)
  }

  /** The summary of the data records `rs`. */
  function Scan(rs: seq<Record>, today: Date, parse: Parser): CsvInfo {
    ScanFrom(NO_HISTORY, rs, today, parse)
  }

  /** The CSV reader takes the first line of the file as its header row; the rest are data records. */
  function DataRecords(lines: seq<Record>): seq<Record> {
    if lines == [] then [] else lines[1..]
  }

  /** The summary of the whole file: nothing when it does not exist. */
  function ScanFile(present: bool, lines: seq<Record>, today: Date, parse: Parser): CsvInfo {
    if present then Scan(DataRecords(lines), today, parse) else NO_HISTORY
  }

  /** The scan of the file the logger reads (`read_csv_info`). */
  method ReadCsvInfo(file: DataFile, today: Date, parse: Parser) returns (info: CsvInfo)
    requires file.Valid()
    ensures info == ScanFile(file.present, file.lines, today, parse)
  {
    var firstDate: Option<Date> := None;
    var lastDate: Option<Date> := None;
    var workoutTodayLogged := false;
    if file.present {
      var records := DataRecords(file.lines);
      var i := 0;
      while i < |records|
        invariant 0 <= i <= |records|
        invariant CsvInfo(firstDate, lastDate, workoutTodayLogged) == Scan(records[..i], today, parse)
      {
        var result := records[i];
        i := i + 1;
        assert records[..i][..i - 1] == records[..i - 1];
        if result.None? {
          continue;
        }
        var record := result.value;
        if |record| > 0 {
          var tsStr := record[0];
          if Trim(tsStr) == TIMESTAMP_HEADER {
            continue;
          }
          var dt := parse(tsStr);
          if dt.Some? {
            var currentDate := dt.value;
            if firstDate.None? || currentDate < firstDate.value {
              firstDate := Some(currentDate);
            }
            lastDate := Some(currentDate);
            if currentDate == today {
              if |record| > WORKOUT_COLUMN_INDEX {
                if ReadsAsTrue(record[WORKOUT_COLUMN_INDEX]) {
                  workoutTodayLogged := true;
                }
              }
            }
          }
        }
      }
      assert records[..|records|] == records;
    }
    info := CsvInfo(firstDate, lastDate, workoutTodayLogged);
  }

  // ---------------------------------------------------------------------------
  // What the summary means

  /** No record of `rs` is a valid data row. */
  ghost predicate NoValidRow(rs: seq<Record>, parse: Parser) {
    forall i :: 0 <= i < |rs| ==> RowDate(rs[i], parse).None?
  }

  /** `m` is the date of some valid row and no valid row is earlier. */
  ghost predicate IsMinDate(m: Date, rs: seq<Record>, parse: Parser) {
    && (exists i :: 0 <= i < |rs| && RowDate(rs[i], parse) == Some(m))
    && (forall i :: 0 <= i < |rs| && RowDate(rs[i], parse).Some? ==> m <= RowDate(rs[i], parse).value)
  }

  /** `l` is the date of the valid row that comes last in file order. */
  ghost predicate IsLastDate(l: Date, rs: seq<Record>, parse: Parser) {
    exists i :: 0 <= i < |rs| && RowDate(rs[i], parse) == Some(l)
      && forall j :: i < j < |rs| ==> RowDate(rs[j], parse).None?
  }

  /** Scanning a non-empty sequence is one step after scanning all but its last record. */
  lemma ScanLast(rs: seq<Record>, today: Date, parse: Parser)
    requires rs != []
    ensures Scan(rs, today, parse) == Step(Scan(rs[..|rs| - 1], today, parse), rs[|rs| - 1], today, parse)
  {
  }

  /** Neither date is known until some valid row has been seen. */
  lemma {:induction false} ScanNoneIff(rs: seq<Record>, today: Date, parse: Parser)
    ensures Scan(rs, today, parse).firstEntryDate.None? <==> NoValidRow(rs, parse)
    ensures Scan(rs, today, parse).lastEntryDate.None? <==> NoValidRow(rs, parse)
  {
    if rs != [] {
      var n := |rs| - 1;
      ScanLast(rs, today, parse);
      ScanNoneIff(rs[..n], today, parse);
      assert NoValidRow(rs, parse) <==> NoValidRow(rs[..n], parse) && RowDate(rs[n], parse).None? by {
        if NoValidRow(rs[..n], parse) && RowDate(rs[n], parse).None? {
          forall i | 0 <= i < |rs| ensures RowDate(rs[i], parse).None? {
            if i < n {
              assert rs[i] == rs[..n][i];
            }
          }
        }
      }
    }
  }

  /** The first date is the date of some valid row. */
  lemma {:induction false} FirstWitness(rs: seq<Record>, today: Date, parse: Parser) returns (i: nat)
    requires Scan(rs, today, parse).firstEntryDate.Some?
    ensures i < |rs| && RowDate(rs[i], parse) == Scan(rs, today, parse).firstEntryDate
  {
    var n := |rs| - 1;
    ScanLast(rs, today, parse);
    var before := Scan(rs[..n], today, parse);
    if Scan(rs, today, parse).firstEntryDate == before.firstEntryDate {
      i := FirstWitness(rs[..n], today, parse);
      assert rs[i] == rs[..n][i];
    } else {
      i := n;
    }
  }

  /** No valid row is dated before the first date. */
  lemma {:induction false} FirstIsLowerBound(rs: seq<Record>, i: nat, today: Date, parse: Parser)
    requires i < |rs| && RowDate(rs[i], parse).Some?
    ensures Scan(rs, today, parse).firstEntryDate.Some?
    ensures Scan(rs, today, parse).firstEntryDate.value <= RowDate(rs[i], parse).value
  {
    var n := |rs| - 1;
    ScanLast(rs, today, parse);
    if i < n {
      assert rs[i] == rs[..n][i];
      FirstIsLowerBound(rs[..n], i, today, parse);
    }
  }

  /** The last date is the date of a valid row that no later valid row follows. */
  lemma {:induction false} LastWitness(rs: seq<Record>, today: Date, parse: Parser) returns (i: nat)
    requires Scan(rs, today, parse).lastEntryDate.Some?
    ensures i < |rs| && RowDate(rs[i], parse) == Scan(rs, today, parse).lastEntryDate
    ensures forall j :: i < j < |rs| ==> RowDate(rs[j], parse).None?
  {
    var n := |rs| - 1;
    ScanLast(rs, today, parse);
    if RowDate(rs[n], parse).Some? {
      i := n;
    } else {
      i := LastWitness(rs[..n], today, parse);
      forall j | i < j < |rs| ensures RowDate(rs[j], parse).None? {
        if j < n {
          assert rs[j] == rs[..n][j];
        }
      }
      assert rs[i] == rs[..n][i];
    }
  }

  /**
   * The first date is the minimum date over the valid rows and the last date
   * is the date of the last valid row in file order; both are absent exactly
   * when there is no valid row.
   */
  lemma ScanDates(rs: seq<Record>, today: Date, parse: Parser)
    ensures Scan(rs, today, parse).firstEntryDate.None? <==> NoValidRow(rs, parse)
    ensures Scan(rs, today, parse).lastEntryDate.None? <==> NoValidRow(rs, parse)
    ensures Scan(rs, today, parse).firstEntryDate.Some? ==>
      IsMinDate(Scan(rs, today, parse).firstEntryDate.value, rs, parse)
    ensures Scan(rs, today, parse).lastEntryDate.Some? ==>
      IsLastDate(Scan(rs, today, parse).lastEntryDate.value, rs, parse)
  {
    ScanNoneIff(rs, today, parse);
    var info := Scan(rs, today, parse);
    if info.firstEntryDate.Some? {
      var i := FirstWitness(rs, today, parse);
      forall j | 0 <= j < |rs| && RowDate(rs[j], parse).Some?
        ensures info.firstEntryDate.value <= RowDate(rs[j], parse).value
      {
        FirstIsLowerBound(rs, j, today, parse);
      }
    }
    if info.lastEntryDate.Some? {
      var i := LastWitness(rs, today, parse);
    }
  }

  /** A workout logged today anywhere in the history sets the flag. */
  lemma {:induction false} WorkoutRowSetsFlag(rs: seq<Record>, i: nat, today: Date, parse: Parser)
    requires i < |rs| && LogsWorkoutOn(rs[i], today, parse)
    ensures Scan(rs, today, parse).workoutLoggedToday
  {
    var n := |rs| - 1;
    ScanLast(rs, today, parse);
    if i < n {
      assert rs[i] == rs[..n][i];
      WorkoutRowSetsFlag(rs[..n], i, today, parse);
    }
  }

  /** The flag is only set by a workout logged today. */
  lemma {:induction false} WorkoutWitness(rs: seq<Record>, today: Date, parse: Parser) returns (i: nat)
    requires Scan(rs, today, parse).workoutLoggedToday
    ensures i < |rs| && LogsWorkoutOn(rs[i], today, parse)
  {
    var n := |rs| - 1;
    ScanLast(rs, today, parse);
    if LogsWorkoutOn(rs[n], today, parse) {
      i := n;
    } else {
      i := WorkoutWitness(rs[..n], today, parse);
      assert rs[i] == rs[..n][i];
    }
  }

  /** The workout flag is set exactly when some valid row dated today has a true workout column. */
  lemma ScanWorkout(rs: seq<Record>, today: Date, parse: Parser)
    ensures Scan(rs, today, parse).workoutLoggedToday <==>
      exists i :: 0 <= i < |rs| && LogsWorkoutOn(rs[i], today, parse)
  {
    if Scan(rs, today, parse).workoutLoggedToday {
      var i := WorkoutWitness(rs, today, parse);
    }
    if exists i :: 0 <= i < |rs| && LogsWorkoutOn(rs[i], today, parse) {
      var i :| 0 <= i < |rs| && LogsWorkoutOn(rs[i], today, parse);
      WorkoutRowSetsFlag(rs, i, today, parse);
    }
  }

  /** Both dates are present together, and the first is never after the last. */
  lemma FirstNotAfterLast(rs: seq<Record>, today: Date, parse: Parser)
    ensures Scan(rs, today, parse).firstEntryDate.Some? == Scan(rs, today, parse).lastEntryDate.Some?
    ensures Scan(rs, today, parse).firstEntryDate.Some? ==>
      Scan(rs, today, parse).firstEntryDate.value <= Scan(rs, today, parse).lastEntryDate.value
  {
    ScanNoneIff(rs, today, parse);
    if Scan(rs, today, parse).lastEntryDate.Some? {
      var i := LastWitness(rs, today, parse);
      FirstIsLowerBound(rs, i, today, parse);
    }
  }

  /** Scanning a concatenation is scanning the second part from the summary of the first. */
  lemma {:induction false} ScanFromConcat(info: CsvInfo, a: seq<Record>, b: seq<Record>, today: Date, parse: Parser)
    ensures ScanFrom(info, a + b, today, parse) == ScanFrom(ScanFrom(info, a, today, parse), b, today, parse)
    decreases |b|
  {
    if b == [] {
      assert a + b == a;
    } else {
      var n := |b| - 1;
      assert (a + b)[..|a + b| - 1] == a + b[..n];
      assert (a + b)[|a + b| - 1] == b[n];
      ScanFromConcat(info, a, b[..n], today, parse);
    }
  }

  /**
   * Skip tolerance: a corrupted record, a record without a first cell, a
   * header row read as data, or a row whose timestamp does not parse leaves
   * the whole summary as if it were absent, wherever it stands.
   */
  lemma SkippedRecordInvisible(rs: seq<Record>, k: nat, r: Record, today: Date, parse: Parser)
    requires k <= |rs|
    requires r.None? || |r.value| == 0 || Trim(r.value[0]) == TIMESTAMP_HEADER || parse(r.value[0]).None?
    ensures Scan(rs[..k] + [r] + rs[k..], today, parse) == Scan(rs, today, parse)
  {
    var a, b := rs[..k], rs[k..];
    assert a + [r] + b == (a + [r]) + b;
    ScanFromConcat(NO_HISTORY, a + [r], b, today, parse);
    assert (a + [r])[..|a + [r]| - 1] == a;
    ScanFromConcat(NO_HISTORY, a, b, today, parse);
    assert a + b == rs;
  }

  /** The header row, read again as data (say, from a concatenated file), changes nothing. */
  lemma HeaderRowInvisible(info: CsvInfo, today: Date, parse: Parser)
    ensures Step(info, Some(HEADER), today, parse) == info
  {
    HeaderLayout();
  }

  // ---------------------------------------------------------------------------
  // Writing, then scanning again

  /** A cell that parses as a date-time is never taken for the header literal. */
  lemma ParsedCellIsNotHeader(s: string, parse: Parser)
    requires Rfc3339Shaped(parse) && parse(s).Some?
    ensures Trim(s) != TIMESTAMP_HEADER
  {
    assert !IsWhitespace(s[0]);
    TrimKeepsFirst(s);
    assert TIMESTAMP_HEADER[0] == 't';
  }

  /** The records the reader yields after an append: the old ones, then the entry's row. */
  lemma DataRecordsAfterAppend(present: bool, lines: seq<Record>, entry: LogEntry)
    requires present || lines == []
    requires present ==> lines != []
    ensures DataRecords(AppendedLines(present, lines, entry)) == DataRecords(lines) + [Some(EntryRow(entry))]
  {
    if present {
      assert AppendedLines(present, lines, entry) == lines + [Some(EntryRow(entry))];
      assert (lines + [Some(EntryRow(entry))])[1..] == lines[1..] + [Some(EntryRow(entry))];
    }
  }

  /**
   * Round trip: after appending an entry whose timestamp parses to day `d`,
   * the rescan reports `d` as the last date, the smaller of the old first date
   * and `d` as the first date, and the workout flag also set when `d` is today
   * and the entry records a workout. The header written on the first append
   * is not counted as data.
   */
  lemma RescanAfterAppend(present: bool, lines: seq<Record>, entry: LogEntry, today: Date, parse: Parser, d: Date)
    requires present || lines == []
    requires present ==> lines != []
    requires Rfc3339Shaped(parse) && parse(entry.timestamp) == Some(d)
    ensures
      var before := ScanFile(present, lines, today, parse);
      var after := ScanFile(true, AppendedLines(present, lines, entry), today, parse);
      && after.lastEntryDate == Some(d)
      && after.firstEntryDate == Some(
        if before.firstEntryDate.Some? && before.firstEntryDate.value <= d then before.firstEntryDate.value else d)
      && after.workoutLoggedToday == (before.workoutLoggedToday || (d == today && entry.workoutToday))
  {
    var rec := Some(EntryRow(entry));
    EntryRowScanned(entry, today, parse, d);
    DataRecordsAfterAppend(present, lines, entry);
    ScanAppended(DataRecords(lines), rec, today, parse, d);
  }

  /** Scanning one more valid row of day `d` after `rs`. */
  lemma ScanAppended(rs: seq<Record>, rec: Record, today: Date, parse: Parser, d: Date)
    requires RowDate(rec, parse) == Some(d)
    ensures
      var before := Scan(rs, today, parse);
      var after := Scan(rs + [rec], today, parse);
      && after.lastEntryDate == Some(d)
      && after.firstEntryDate == Some(
        if before.firstEntryDate.Some? && before.firstEntryDate.value <= d then before.firstEntryDate.value else d)
      && after.workoutLoggedToday == (before.workoutLoggedToday || LogsWorkoutOn(rec, today, parse))
  {
    ScanLast(rs + [rec], today, parse);
    assert (rs + [rec])[..|rs|] == rs;
  }

  /** The scanner reads an entry's row back as a valid row of the entry's day, with its workout flag. */
  lemma EntryRowScanned(entry: LogEntry, today: Date, parse: Parser, d: Date)
    requires Rfc3339Shaped(parse) && parse(entry.timestamp) == Some(d)
    ensures RowDate(Some(EntryRow(entry)), parse) == Some(d)
    ensures LogsWorkoutOn(Some(EntryRow(entry)), today, parse) == (d == today && entry.workoutToday)
  {
    ParsedCellIsNotHeader(entry.timestamp, parse);
  }

  /**
   * A file that exists but is empty gets no header on the first append, so
   * the reader takes the entry's row for the header and the rescan sees no
   * history at all.
   */
  lemma EmptyExistingFileHidesEntry(entry: LogEntry, today: Date, parse: Parser)
    ensures AppendedLines(true, [], entry) == [Some(EntryRow(entry))]
    ensures ScanFile(true, AppendedLines(true, [], entry), today, parse) == NO_HISTORY
  {
  }
}
