/**
 * The persisted column layout: one `LogEntry` per row, twelve columns in a
 * fixed order, the header row that names them, and how each field becomes a
 * cell of text.
 */
module Schema {
  import opened Wrappers
  import opened Text

  /** An unsigned 8-bit integer (Rust's `u8`). */
  type U8 = x: int | 0 <= x < 256

  /**
   * A sleep value (Rust's `Option<f32>` fields). Its floating-point content is
   * not modelled: it is carried as the text of its cell.
   */
  type F32Text = string

  /** One row of the data file, already split into cells. */
  type Row = seq<string>

  /** One daily entry, field for field. */
  datatype LogEntry = LogEntry(
    timestamp: string,
    dayCount: int,
    sleepHours: Option<F32Text>,
    sleepQuality: Option<F32Text>,
    sleepiness: U8,
    zonkedness: U8,
    energy: U8,
    strength: U8,
    focus: U8,
    intelligence: U8,
    workoutToday: bool,
    remarks: string)

  /** The header row written when the file is created. */
  const HEADER: Row := [
    "timestamp", "day_count", "sleep_hours", "sleep_quality",
    "sleepiness", "zonkedness", "energy", "strength", "focus", "intelligence",
    "workout_today", "remarks"]

  /** The name the scanner compares a trimmed first cell against to recognise a header row. */
  const TIMESTAMP_HEADER: string := "timestamp"

  /** The 0-based column the scanner reads the workout flag from. */
  const WORKOUT_COLUMN_INDEX: nat := 10

  /** How a `bool` is written to a cell. */
  function BoolCell(b: bool): string {
    if b then "true" else "false"
  }

  /** An absent optional value is written as an empty cell. */
  function OptionalCell(v: Option<F32Text>): string {
    match v
    case Some(t) => t
    case None => ""
  }

  /** How the scanner reads a workout cell: "true" in any ASCII case, surrounding whitespace ignored. */
  predicate ReadsAsTrue(cell: string) {
    EqIgnoreAsciiCase(Trim(cell), "true")
  }

  /** A word that equals "true" up to ASCII case starts with 't' or 'T' and ends with 'e' or 'E'. */
  lemma TrueWordUnpadded(w: string)
    requires EqIgnoreAsciiCase(w, "true")
    ensures !IsWhitespace(w[0]) && !IsWhitespace(w[|w| - 1])
  {
    assert AsciiLower(w[0]) == 't' && AsciiLower(w[3]) == 'e';
  }

  /** Any case variant of "true", padded with any whitespace, reads as true. */
  lemma TrueCellPadded(pre: string, w: string, post: string)
    requires AllWhitespace(pre) && AllWhitespace(post)
    requires EqIgnoreAsciiCase(w, "true")
    ensures ReadsAsTrue(pre + w + post)
  {
    TrueWordUnpadded(w);
    TrimOfPadded(pre, w, post);
  }

  /** Conversely, a cell reads as true only when it is a case variant of "true" padded with whitespace. */
  lemma TrueCellShape(cell: string) returns (pre: string, w: string, post: string)
    requires ReadsAsTrue(cell)
    ensures cell == pre + w + post
    ensures AllWhitespace(pre) && AllWhitespace(post) && EqIgnoreAsciiCase(w, "true")
  {
    pre, post := TrimSplit(cell);
    w := Trim(cell);
  }

  /** The scanner reads back exactly the flag the writer wrote. */
  lemma BoolCellRoundTrip(b: bool)
    ensures ReadsAsTrue(BoolCell(b)) == b
  {
    if b {
      var t := "true";
      assert !IsWhitespace(t[0]) && !IsWhitespace(t[3]);
      TrimUnpadded(t);
    } else {
      var f := "false";
      assert !IsWhitespace(f[0]) && !IsWhitespace(f[4]);
      TrimUnpadded(f);
    }
  }

  /**
   * The cells of an entry, in the header's column order. The timestamp lands
   * in the column the scanner parses, and the workout flag in the column the
   * scanner reads it back from.
   */
  function EntryRow(e: LogEntry): (row: Row)
    ensures |row| == |HEADER|
    ensures row[0] == e.timestamp
    ensures ReadsAsTrue(row[WORKOUT_COLUMN_INDEX]) == e.workoutToday
  {
    BoolCellRoundTrip(e.workoutToday);
    [e.timestamp, IntToDecimal(e.dayCount), OptionalCell(e.sleepHours), OptionalCell(e.sleepQuality),
     NatToDecimal(e.sleepiness), NatToDecimal(e.zonkedness), NatToDecimal(e.energy),
     NatToDecimal(e.strength), NatToDecimal(e.focus), NatToDecimal(e.intelligence),
     BoolCell(e.workoutToday), e.remarks]
  }

  /**
   * The header has twelve names; its first is the literal the scanner skips
   * and the one at `WORKOUT_COLUMN_INDEX` names the workout field.
   */
  lemma HeaderLayout()
    ensures |HEADER| == 12
    ensures HEADER[0] == TIMESTAMP_HEADER && Trim(HEADER[0]) == TIMESTAMP_HEADER
    ensures HEADER[WORKOUT_COLUMN_INDEX] == "workout_today"
  {
    TrimUnpadded(TIMESTAMP_HEADER);
  }
}
