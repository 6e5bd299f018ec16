/**
 * The data file as persistent state: whether it exists and its lines, in file
 * order. The only way the logger changes it is `AppendToCsv`.
 */
module Storage {
  import opened Wrappers
  import opened Schema

  /**
   * One line of the file as the CSV reader delivers it: the cells of a
   * well-formed record, or `None` for a record the reader reports as corrupted.
   */
  type Record = Option<Row>

  /**
   * The file after appending `entry` (the writer's specification): the header
   * first when the file did not exist, then the entry's row; what was there
   * before is kept as it was.
   */
  function AppendedLines(present: bool, lines: seq<Record>, entry: LogEntry): (r: seq<Record>)
    ensures |r| == |lines| + (if present then 1 else 2)
    ensures r[..|lines|] == lines
    ensures !present ==> r[|lines|] == Some(HEADER)
    ensures r[|r| - 1] == Some(EntryRow(entry))
  {
    lines + (if present then [] else [Some(HEADER)]) + [Some(EntryRow(entry))]
  }

  /** Appending to a missing file yields exactly the header followed by the entry's row. */
  lemma AppendToMissingFile(entry: LogEntry)
    ensures AppendedLines(false, [], entry) == [Some(HEADER), Some(EntryRow(entry))]
  {
  }

  class DataFile {
    var present: bool
    var lines: seq<Record>

    /** A file that does not exist has no lines. */
    ghost predicate Valid()
      reads this
    {
      present || lines == []
    }

    constructor (present: bool, lines: seq<Record>)
      requires present || lines == []
      ensures Valid() && this.present == present && this.lines == lines
    {
      this.present := present;
      this.lines := lines;
    }

    /**
     * Appends one entry: the header row first if the file did not exist, then
     * the entry's row. Existing lines are never rewritten.
     */
    method AppendToCsv(entry: LogEntry)
      requires Valid()
      modifies this
      ensures Valid() && present
      ensures lines == AppendedLines(old(present), old(lines), entry)
    {
      var fileExists := present;
      present := true;
      if !fileExists {
        lines := lines + [Some(HEADER)];
      }
      lines := lines + [Some(EntryRow(entry))];
    }
  }
}
