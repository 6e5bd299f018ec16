/**
 * One run of the logger: scan the history, derive the session facts (first
 * entry of the day, day count, whether the workout is already confirmed),
 * ask the prompts, and append the completed entry.
 */
module Session {
  import opened Wrappers
  import opened Text
  import opened Schema
  import opened Storage
  import opened Scanner

  /** The error kinds of a run. Only `DialogCancelled` and `IoError` arise in this model. */
  datatype AppError = CsvError | IoError | DateParseError | DialogCancelled

  /** What the user did at a prompt: answered it, or aborted it. */
  datatype Reply<T> = Answered(value: T) | Cancelled

  /** The user's replies to every prompt a run may ask, in prompt order. */
  datatype Replies = Replies(
    sleepHours: Reply<F32Text>,
    sleepQuality: Reply<F32Text>,
    // For each rating prompt, the lines the user submits, in order.
    sleepiness: seq<string>,
    zonkedness: seq<string>,
    energy: seq<string>,
    strength: seq<string>,
    focus: seq<string>,
    intelligence: seq<string>,
    workout: Reply<bool>,
    remarks: Reply<string>)

  /** Interacting with a prompt: the answer, or `DialogCancelled` when the user aborts. */
  function Ask<T>(reply: Reply<T>): (r: Result<T, AppError>)
    ensures r.Success? <==> reply.Answered?
    ensures r.Success? ==> r.value == reply.value
    ensures r.Failure? ==> r.error == DialogCancelled
  {
    match reply
    case Answered(v) => Success(v)
    case Cancelled => Failure(DialogCancelled)
  }

  // ---------------------------------------------------------------------------
  // Rating prompts

  /** The validator of a rating prompt: accepts a `u8` from 1 to 10, else names the problem. */
  function ValidateRating(input: string): (r: Result<(), string>)
    ensures r.Success? <==> ParseU8(input).Some? && 1 <= ParseU8(input).value <= 10
    ensures ParseU8(input).None? ==> r == Failure("Please enter a valid number")
    ensures r.Failure? && ParseU8(input).Some? ==> r == Failure("Please enter a number between 1 and 10")
  {
    match ParseU8(input)
    case Some(val) =>
      if 1 <= val <= 10 then Success(())
      else Failure("Please enter a number between 1 and 10")
    case None => Failure("Please enter a valid number")
  }

  /** The decimal text of a byte value is accepted exactly when the value lies in 1..10. */
  lemma ValidateRatingDecimal(n: nat)
    ensures ValidateRating(NatToDecimal(n)).Success? <==> 1 <= n <= 10
  {
    DecimalRoundTrip(n);
  }

  /** An optional '+', any run of '0's and the decimal text of a number from 1 to 10 is accepted. */
  lemma RatingTextAccepted(sign: string, zeros: string, n: nat)
    requires sign == "" || sign == "+"
    requires AllZeros(zeros) && 1 <= n <= 10
    ensures ValidateRating(sign + zeros + NatToDecimal(n)).Success?
  {
    var digits := zeros + NatToDecimal(n);
    LeadingZerosValue(zeros, NatToDecimal(n));
    DecimalRoundTrip(n);
    assert sign + zeros + NatToDecimal(n) == sign + digits;
    if sign == "+" {
      assert (sign + digits)[1..] == digits;
    } else {
      assert sign + digits == digits;
    }
  }

  /** Conversely, every accepted line has that shape: nothing else gets past the validator. */
  lemma AcceptedRatingShape(input: string) returns (sign: string, zeros: string, n: nat)
    requires ValidateRating(input).Success?
    ensures sign == "" || sign == "+"
    ensures AllZeros(zeros) && 1 <= n <= 10
    ensures input == sign + zeros + NatToDecimal(n)
  {
    var digits;
    sign, digits := ParseU8Digits(input);
    assert 1 <= DigitsValue(digits) <= 10;
    zeros, n := DecimalShape(digits);
    Regroup(sign, zeros, NatToDecimal(n));
  }

  /** Kept apart from the proof above, where the solver finds this regrouping slowly. */
  lemma Regroup(a: string, b: string, c: string)
    ensures a + (b + c) == a + b + c
  {
  }

  /** Accepted lines: `u8` parsing admits a leading '+' and leading zeros. */
  lemma ValidateRatingAccepts()
    ensures ValidateRating("1").Success? && ValidateRating("10").Success?
    ensures ValidateRating("+7").Success? && ValidateRating("007").Success?
  {
    assert DigitsValue("1") == 1 && DigitsValue("10") == 10 && DigitsValue("7") == 7;
    assert DigitsValue("00") == 0 && DigitsValue("007") == 7;
    assert "+7"[1..] == "7";
  }

  /** Numbers outside 1..10, including the largest `u8`, are out of range. */
  lemma ValidateRatingOutOfRange()
    ensures ValidateRating("0") == Failure("Please enter a number between 1 and 10")
    ensures ValidateRating("11") == Failure("Please enter a number between 1 and 10")
    ensures ValidateRating("255") == Failure("Please enter a number between 1 and 10")
  {
    assert DigitsValue("0") == 0 && DigitsValue("11") == 11;
    assert DigitsValue("25") == 25 && DigitsValue("255") == 255;
  }

  /** Text that is not a `u8`: too large, padded, negative, a bare sign, or empty. */
  lemma ValidateRatingNotANumber()
    ensures ValidateRating("256") == Failure("Please enter a valid number")
    ensures ValidateRating(" 7") == Failure("Please enter a valid number")
    ensures ValidateRating("-1") == Failure("Please enter a valid number")
    ensures ValidateRating("+") == Failure("Please enter a valid number")
    ensures ValidateRating("") == Failure("Please enter a valid number")
  {
    assert DigitsValue("25") == 25 && DigitsValue("256") == 256;
    assert !IsDigit(" 7"[0]) && !IsDigit("-1"[0]) && !IsDigit("+"[0]);
  }

  /**
   * The prompt re-asks until the validator accepts a line: the index of the
   * first accepted line, or the number of lines when none is accepted.
   */
  function FirstAccepted(attempts: seq<string>): (k: nat)
    ensures k <= |attempts|
    ensures k < |attempts| ==> ValidateRating(attempts[k]).Success?
    ensures forall j :: 0 <= j < k ==> ValidateRating(attempts[j]).Failure?
  {
    if attempts == [] then 0
    else if ValidateRating(attempts[0]).Success? then 0
    else 1 + FirstAccepted(attempts[1..])
  }

  /** Some submitted line is accepted by the validator. */
  ghost predicate RatingGiven(attempts: seq<string>) {
    exists i :: 0 <= i < |attempts| && ValidateRating(attempts[i]).Success?
  }

  /** Reading the accepted line as a `u8`; a line that is not one is an `IoError`. */
  function ParseRating(input: string): (r: Result<U8, AppError>)
    ensures r.Success? <==> ParseU8(input).Some?
    ensures r.Success? ==> r.value as int == ParseU8(input).value
    ensures r.Failure? ==> r.error == IoError
    ensures ValidateRating(input).Success? ==> r.Success? && 1 <= r.value <= 10
  {
    match ParseU8(input)
    case Some(val) => Success(val)
    case None => Failure(IoError)
  }

  /**
   * `ask_rating`: the value of the first accepted line, which lies in 1..10;
   * `DialogCancelled` when the user aborts before giving one.
   */
  function AskRating(attempts: seq<string>): (r: Result<U8, AppError>)
    ensures r.Success? ==> 1 <= r.value <= 10
    ensures r.Success? <==> RatingGiven(attempts)
    ensures r.Success? ==> exists i ::
      (0 <= i < |attempts| && ParseU8(attempts[i]) == Some(r.value as int) &&
       forall j :: 0 <= j < i ==> ValidateRating(attempts[j]).Failure?)
    ensures r.Failure? ==> r.error == DialogCancelled
  {
    var k := FirstAccepted(attempts);
    if k == |attempts| then Failure(DialogCancelled) else ParseRating(attempts[k])
  }

  // ---------------------------------------------------------------------------
  // Session facts

  /** No entry yet, or the last one is from another day. */
  function IsFirstEntryToday(lastEntryDate: Option<Date>, today: Date): (first: bool)
    ensures first <==> lastEntryDate != Some(today)
  {
    match lastEntryDate
    case Some(lastDate) => lastDate != today
    case None => true
  }

  /** Days since the first-ever entry, counting its day as day 1; today is the first day when there is none. */
  function DayCount(firstEntryDate: Option<Date>, today: Date): (n: int)
    ensures firstEntryDate.None? ==> n == 1
    ensures firstEntryDate.Some? ==> n == today - firstEntryDate.value + 1
    ensures firstEntryDate.Some? && firstEntryDate.value <= today ==> n >= 1
  {
    var firstEverDate := firstEntryDate.GetOr(today);
    today - firstEverDate + 1
  }

  /** Asks a sleep prompt only on the first entry of the day. */
  function AskSleep(isFirstEntryToday: bool, reply: Reply<F32Text>): (r: Result<Option<F32Text>, AppError>)
    ensures r.Success? <==> (isFirstEntryToday ==> reply.Answered?)
    ensures r.Success? ==> r.value == if isFirstEntryToday then Some(reply.value) else None
  {
    if isFirstEntryToday then
      var v :- Ask(reply);
      Success(Some(v))
    else Success(None)
  }

  /** Every prompt the session asks is answered. */
  ghost predicate AllAnswered(info: CsvInfo, today: Date, replies: Replies) {
    && (IsFirstEntryToday(info.lastEntryDate, today) ==>
         replies.sleepHours.Answered? && replies.sleepQuality.Answered?)
    && RatingGiven(replies.sleepiness) && RatingGiven(replies.zonkedness) && RatingGiven(replies.energy)
    && RatingGiven(replies.strength) && RatingGiven(replies.focus) && RatingGiven(replies.intelligence)
    && (!info.workoutLoggedToday ==> replies.workout.Answered?)
    && replies.remarks.Answered?
  }

  /** Every rating of the entry lies in 1..10. */
  predicate RatingsInRange(e: LogEntry) {
    && 1 <= e.sleepiness <= 10 && 1 <= e.zonkedness <= 10 && 1 <= e.energy <= 10
    && 1 <= e.strength <= 10 && 1 <= e.focus <= 10 && 1 <= e.intelligence <= 10
  }

  /**
   * The entry a session produces from the scan summary and the user's
   * replies, asked in the program's order; the first aborted prompt ends the
   * session with `DialogCancelled`.
   */
  function CollectEntry(info: CsvInfo, today: Date, now: string, replies: Replies): (r: Result<LogEntry, AppError>)
    ensures r.Failure? ==> r.error == DialogCancelled
    ensures r.Success? <==> AllAnswered(info, today, replies)
    ensures r.Success? ==> r.value.timestamp == now
    ensures r.Success? ==> r.value.dayCount == DayCount(info.firstEntryDate, today)
    ensures r.Success? ==>
      && (r.value.sleepHours.Some? <==> IsFirstEntryToday(info.lastEntryDate, today))
      && (r.value.sleepQuality.Some? <==> IsFirstEntryToday(info.lastEntryDate, today))
    ensures r.Success? ==> RatingsInRange(r.value)
    ensures r.Success? ==>
      && r.value.sleepiness == AskRating(replies.sleepiness).value
      && r.value.zonkedness == AskRating(replies.zonkedness).value
      && r.value.energy == AskRating(replies.energy).value
      && r.value.strength == AskRating(replies.strength).value
      && r.value.focus == AskRating(replies.focus).value
      && r.value.intelligence == AskRating(replies.intelligence).value
    ensures r.Success? && IsFirstEntryToday(info.lastEntryDate, today) ==>
      && r.value.sleepHours == Some(replies.sleepHours.value)
      && r.value.sleepQuality == Some(replies.sleepQuality.value)
    ensures r.Success? ==> r.value.workoutToday == (info.workoutLoggedToday || replies.workout == Answered(true))
    ensures r.Success? ==> r.value.remarks == replies.remarks.value
  {
    var isFirstEntryToday := IsFirstEntryToday(info.lastEntryDate, today);
    var dayCount := DayCount(info.firstEntryDate, today);
    var sleepHours :- AskSleep(isFirstEntryToday, replies.sleepHours);
    var sleepQuality :- AskSleep(isFirstEntryToday, replies.sleepQuality);
    var sleepiness :- AskRating(replies.sleepiness);
    var zonkedness :- AskRating(replies.zonkedness);
    var energy :- AskRating(replies.energy);
    var strength :- AskRating(replies.strength);
    var focus :- AskRating(replies.focus);
    var intelligence :- AskRating(replies.intelligence);
    var workoutToday :- if info.workoutLoggedToday then Success(true) else Ask(replies.workout);
    var remarks :- Ask(replies.remarks);
    Success(LogEntry(now, dayCount, sleepHours, sleepQuality,
                     sleepiness, zonkedness, energy, strength, focus, intelligence,
                     workoutToday, remarks))
  }

  /**
   * One run: scan the file, ask the prompts, and append the entry. An aborted
   * prompt leaves the file untouched.
   */
  method LogToday(file: DataFile, today: Date, now: string, parse: Parser, replies: Replies)
    returns (r: Result<LogEntry, AppError>)
    requires file.Valid()
    modifies file
    ensures file.Valid()
    ensures r == CollectEntry(ScanFile(old(file.present), old(file.lines), today, parse), today, now, replies)
    ensures r.Success? ==> file.present && file.lines == AppendedLines(old(file.present), old(file.lines), r.value)
    ensures r.Failure? ==> file.present == old(file.present) && file.lines == old(file.lines)
  {
    var csvInfo := ReadCsvInfo(file, today, parse);
    var isFirstEntryToday := IsFirstEntryToday(csvInfo.lastEntryDate, today);
    var dayCount := DayCount(csvInfo.firstEntryDate, today);

    var sleepHours: Option<F32Text> := None;
    var sleepQuality: Option<F32Text> := None;
    if isFirstEntryToday {
      var hours :- Ask(replies.sleepHours);
      sleepHours := Some(hours);
      var quality :- Ask(replies.sleepQuality);
      sleepQuality := Some(quality);
    }

    var sleepiness :- AskRating(replies.sleepiness);
    var zonkedness :- AskRating(replies.zonkedness);
    var energy :- AskRating(replies.energy);
    var strength :- AskRating(replies.strength);
    var focus :- AskRating(replies.focus);
    var intelligence :- AskRating(replies.intelligence);

    var workoutToday: bool;
    if !csvInfo.workoutLoggedToday {
      workoutToday :- Ask(replies.workout);
    } else {
      workoutToday := true;
    }

    var remarks :- Ask(replies.remarks);

    var entry := LogEntry(now, dayCount, sleepHours, sleepQuality,
                          sleepiness, zonkedness, energy, strength, focus, intelligence,
                          workoutToday, remarks);
    file.AppendToCsv(entry);
    r := Success(entry);
  }

  // ---------------------------------------------------------------------------
  // Properties of sessions

  /** No history row is dated after `today`. */
  ghost predicate HistoryNotAfter(rs: seq<Record>, today: Date, parse: Parser) {
    forall i :: 0 <= i < |rs| && RowDate(rs[i], parse).Some? ==> RowDate(rs[i], parse).value <= today
  }

  /**
   * A run is the first entry of the day exactly when the history has no valid
   * row, or its last valid row in file order is dated another day.
   */
  lemma FirstEntryTodayIff(rs: seq<Record>, today: Date, parse: Parser)
    ensures IsFirstEntryToday(Scan(rs, today, parse).lastEntryDate, today) <==>
      NoValidRow(rs, parse) || exists i :: 0 <= i < |rs| && LastValidRowOn(rs, i, parse) && RowDate(rs[i], parse) != Some(today)
  {
    ScanDates(rs, today, parse);
    var info := Scan(rs, today, parse);
    if info.lastEntryDate.Some? {
      var i := LastWitness(rs, today, parse);
      assert LastValidRowOn(rs, i, parse);
    }
  }

  /** Record `i` is a valid row and no valid row follows it. */
  ghost predicate LastValidRowOn(rs: seq<Record>, i: nat, parse: Parser)
    requires i < |rs|
  {
    RowDate(rs[i], parse).Some? && forall j :: i < j < |rs| ==> RowDate(rs[j], parse).None?
  }

  /** Without a file there is no history: first entry of the day, day 1, no workout yet. */
  lemma FirstRunFacts(today: Date, parse: Parser)
    ensures ScanFile(false, [], today, parse) == NO_HISTORY
    ensures IsFirstEntryToday(NO_HISTORY.lastEntryDate, today)
    ensures DayCount(NO_HISTORY.firstEntryDate, today) == 1
  {
  }

  /** The day count is at least 1 whenever no history row lies in the future. */
  lemma DayCountAtLeastOne(rs: seq<Record>, today: Date, parse: Parser)
    requires HistoryNotAfter(rs, today, parse)
    ensures DayCount(Scan(rs, today, parse).firstEntryDate, today) >= 1
  {
    if Scan(rs, today, parse).firstEntryDate.Some? {
      var i := FirstWitness(rs, today, parse);
    }
  }

  /** A prompt the session does not ask has no effect, whatever the user would have replied. */
  lemma UnaskedPromptsIgnored(info: CsvInfo, today: Date, now: string, replies: Replies,
                              hours: Reply<F32Text>, quality: Reply<F32Text>, workout: Reply<bool>)
    ensures !IsFirstEntryToday(info.lastEntryDate, today) ==>
      CollectEntry(info, today, now, replies.(sleepHours := hours, sleepQuality := quality))
        == CollectEntry(info, today, now, replies)
    ensures info.workoutLoggedToday ==>
      CollectEntry(info, today, now, replies.(workout := workout)) == CollectEntry(info, today, now, replies)
  {
  }

  /**
   * A second run on the same day, after a first run whose entry was
   * appended: it is not the first entry of the day, so its sleep fields are
   * absent; it has the same day count; and a workout confirmed by the first
   * entry stays confirmed.
   */
  lemma SecondEntrySameDay(present: bool, lines: seq<Record>, today: Date, parse: Parser,
                           now1: string, replies1: Replies, now2: string, replies2: Replies)
    requires present || lines == []
    requires present ==> lines != []
    requires HistoryNotAfter(DataRecords(lines), today, parse)
    requires Rfc3339Shaped(parse) && parse(now1) == Some(today)
    requires CollectEntry(ScanFile(present, lines, today, parse), today, now1, replies1).Success?
    ensures
      var e1 := CollectEntry(ScanFile(present, lines, today, parse), today, now1, replies1).value;
      var info2 := ScanFile(true, AppendedLines(present, lines, e1), today, parse);
      var r2 := CollectEntry(info2, today, now2, replies2);
      && !IsFirstEntryToday(info2.lastEntryDate, today)
      && DayCount(info2.firstEntryDate, today) == e1.dayCount
      && (e1.workoutToday ==> info2.workoutLoggedToday)
      && (r2.Success? ==>
           && r2.value.sleepHours.None? && r2.value.sleepQuality.None?
           && r2.value.dayCount == e1.dayCount
           && (e1.workoutToday ==> r2.value.workoutToday))
  {
    var info1 := ScanFile(present, lines, today, parse);
    var e1 := CollectEntry(info1, today, now1, replies1).value;
    RescanAfterTodaysEntry(present, lines, today, parse, e1);
  }

  /**
   * After appending an entry stamped today whose day count was derived from
   * the history, the rescan finds today as the last date, the same day count
   * and, if the entry records a workout, the workout flag.
   */
  lemma RescanAfterTodaysEntry(present: bool, lines: seq<Record>, today: Date, parse: Parser, e: LogEntry)
    requires present || lines == []
    requires present ==> lines != []
    requires HistoryNotAfter(DataRecords(lines), today, parse)
    requires Rfc3339Shaped(parse) && parse(e.timestamp) == Some(today)
    requires e.dayCount == DayCount(ScanFile(present, lines, today, parse).firstEntryDate, today)
    ensures
      var info2 := ScanFile(true, AppendedLines(present, lines, e), today, parse);
      && info2.lastEntryDate == Some(today)
      && DayCount(info2.firstEntryDate, today) == e.dayCount
      && (e.workoutToday ==> info2.workoutLoggedToday)
  {
    var info1 := ScanFile(present, lines, today, parse);
    RescanAfterAppend(present, lines, e, today, parse, today);
    if info1.firstEntryDate.Some? {
      var i := FirstWitness(DataRecords(lines), today, parse);
    }
  }

  /** A file holding a header line and one valid row: the summary is that row's day, and its workout flag. */
  lemma SingleRowFile(header: Record, rec: Record, today: Date, parse: Parser)
    requires RowDate(rec, parse).Some?
    ensures
      var d := RowDate(rec, parse).value;
      ScanFile(true, [header, rec], today, parse) == CsvInfo(Some(d), Some(d), LogsWorkoutOn(rec, today, parse))
  {
    assert DataRecords([header, rec]) == [] + [rec];
    ScanAppended([], rec, today, parse, RowDate(rec, parse).value);
  }

  /** A history holding one row dated yesterday: the run is the first of today and day 2. */
  lemma YesterdayScenario(row: Row, today: Date, parse: Parser)
    requires Rfc3339Shaped(parse)
    requires |row| > 0 && parse(row[0]) == Some(today - 1)
    ensures
      var info := ScanFile(true, [Some(HEADER), Some(row)], today, parse);
      IsFirstEntryToday(info.lastEntryDate, today) && DayCount(info.firstEntryDate, today) == 2
  {
    ParsedCellIsNotHeader(row[0], parse);
    SingleRowFile(Some(HEADER), Some(row), today, parse);
  }

  /**
   * A history holding one row dated today with the workout marked true: the
   * next entry skips the sleep prompts and the workout prompt, and records a
   * workout.
   */
  lemma WorkoutConfirmedScenario(row: Row, today: Date, parse: Parser, now: string, replies: Replies)
    requires Rfc3339Shaped(parse)
    requires |row| > WORKOUT_COLUMN_INDEX && parse(row[0]) == Some(today)
    requires ReadsAsTrue(row[WORKOUT_COLUMN_INDEX])
    ensures
      var info := ScanFile(true, [Some(HEADER), Some(row)], today, parse);
      var r := CollectEntry(info, today, now, replies);
      && !IsFirstEntryToday(info.lastEntryDate, today)
      && info.workoutLoggedToday
      && (r.Success? ==> r.value.workoutToday && r.value.sleepHours.None? && r.value.sleepQuality.None?)
  {
    ParsedCellIsNotHeader(row[0], parse);
    SingleRowFile(Some(HEADER), Some(row), today, parse);
  }
}
