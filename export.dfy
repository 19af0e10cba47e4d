/**
 * Export of the session history: one CSV line per session under a fixed
 * header, and the records handed to the JSON writer.
 */
module Export {
  import opened Options
  import opened Text

  /** A session as the history store returns it; `completed` is the store's 0/1 flag. */
  datatype StoredSession = StoredSession(
    id: int,
    startedAt: string,
    completedAt: Option<string>,
    durationSeconds: int,
    plannedDuration: int,
    meditationType: string,
    completed: int)

  /** The column names: the header line is these names joined by commas. */
  const CSV_COLUMNS: seq<string> :=
    ["id", "started_at", "completed_at", "duration_seconds", "planned_duration", "meditation_type", "completed"]

  const CSV_HEADER: string := Join(CSV_COLUMNS, ",")

  /** The seven cells of a session's line, in column order. */
  function RowCells(s: StoredSession): seq<string> {
    [IntToString(s.id), s.startedAt, s.completedAt.GetOr(""), IntToString(s.durationSeconds),
     IntToString(s.plannedDuration), s.meditationType, if s.completed != 0 then "true" else "false"]
  }

  /** `sessionToCSVRow(session)`: the cells joined by commas, with no quoting. */
  function SessionToCsvRow(s: StoredSession): string {
    Join(RowCells(s), ",")
  }

  /** The text fields, which alone can hold a comma or a line break. */
  function TextFields(s: StoredSession): seq<string> {
    [s.startedAt, s.completedAt.GetOr(""), s.meditationType]
  }

  lemma RenderedNumbersArePlain(i: int)
    ensures ',' !in IntToString(i) && '\n' !in IntToString(i)
  {
    var t := IntToString(i);
    assert forall k :: 0 <= k < |t| ==> t[k] != ',' && t[k] != '\n';
  }

  /** The text fields, which alone can hold a comma or a line break, hold neither. */
  predicate PlainFields(s: StoredSession, c: char) {
    forall k :: 0 <= k < 3 ==> c !in TextFields(s)[k]
  }

  lemma OccurrencesInSeven(x0: string, x1: string, x2: string, x3: string, x4: string, x5: string, x6: string, c: char)
    ensures OccurrencesIn([x0, x1, x2, x3, x4, x5, x6], c)
      == Occurrences(x0, c) + Occurrences(x1, c) + Occurrences(x2, c) + Occurrences(x3, c)
       + Occurrences(x4, c) + Occurrences(x5, c) + Occurrences(x6, c)
  {
    OccurrencesInCons(x6, [], c);
    OccurrencesInCons(x5, [x6], c);
    OccurrencesInCons(x4, [x5, x6], c);
    OccurrencesInCons(x3, [x4, x5, x6], c);
    OccurrencesInCons(x2, [x3, x4, x5, x6], c);
    OccurrencesInCons(x1, [x2, x3, x4, x5, x6], c);
    OccurrencesInCons(x0, [x1, x2, x3, x4, x5, x6], c);
    assert [x0, x1, x2, x3, x4, x5, x6] == [x0] + [x1, x2, x3, x4, x5, x6];
    assert [x1, x2, x3, x4, x5, x6] == [x1] + [x2, x3, x4, x5, x6];
    assert [x2, x3, x4, x5, x6] == [x2] + [x3, x4, x5, x6];
    assert [x3, x4, x5, x6] == [x3] + [x4, x5, x6];
    assert [x4, x5, x6] == [x4] + [x5, x6];
    assert [x5, x6] == [x5] + [x6];
    assert [x6] == [x6] + [];
  }

  lemma OccurrencesInThree(x0: string, x1: string, x2: string, c: char)
    ensures OccurrencesIn([x0, x1, x2], c) == Occurrences(x0, c) + Occurrences(x1, c) + Occurrences(x2, c)
  {
    OccurrencesInCons(x2, [], c);
    OccurrencesInCons(x1, [x2], c);
    OccurrencesInCons(x0, [x1, x2], c);
    assert [x0, x1, x2] == [x0] + [x1, x2];
    assert [x1, x2] == [x1] + [x2];
    assert [x2] == [x2] + [];
  }

  /** A line holds the separators' occurrences and those of the cells that may have them. */
  lemma LineOccurrences(x0: string, x1: string, x2: string, x3: string, x4: string, x5: string, x6: string, c: char)
    requires c !in x0 && c !in x3 && c !in x4 && c !in x6 && (c == ',' || c == '\n')
    ensures Occurrences(Join([x0, x1, x2, x3, x4, x5, x6], ","), c)
      == OccurrencesIn([x1, x2, x5], c) + (if c == ',' then 6 else 0)
  {
    JoinOccurrences([x0, x1, x2, x3, x4, x5, x6], ",", c);
    OccurrencesInSeven(x0, x1, x2, x3, x4, x5, x6, c);
    OccurrencesInThree(x1, x2, x5, c);
    assert Occurrences(",", c) == (if c == ',' then 1 else 0);
  }

  /** Only the text fields can contribute a comma or a line break to a line. */
  lemma RowOccurrences(s: StoredSession, c: char)
    requires c == ',' || c == '\n'
    ensures Occurrences(SessionToCsvRow(s), c)
      == OccurrencesIn(TextFields(s), c) + (if c == ',' then 6 else 0)
    ensures Occurrences(SessionToCsvRow(s), c) == (if c == ',' then 6 else 0) <==> PlainFields(s, c)
  {
    var cells := RowCells(s);
    RenderedNumbersArePlain(s.id);
    RenderedNumbersArePlain(s.durationSeconds);
    RenderedNumbersArePlain(s.plannedDuration);
    assert c !in cells[6];
    LineOccurrences(cells[0], cells[1], cells[2], cells[3], cells[4], cells[5], cells[6], c);
    OccurrencesInZero(TextFields(s), c);
  }

  /** With no comma in the text fields, splitting a line at commas gives back its cells. */
  lemma RowSplits(s: StoredSession)
    requires PlainFields(s, ',')
    ensures Split(SessionToCsvRow(s), ',') == RowCells(s)
  {
    var cells := RowCells(s);
    var texts := TextFields(s);
    assert ',' !in texts[0] && ',' !in texts[1] && ',' !in texts[2];
    RenderedNumbersArePlain(s.id);
    RenderedNumbersArePlain(s.durationSeconds);
    RenderedNumbersArePlain(s.plannedDuration);
    assert ',' !in cells[6];
    assert forall k :: 0 <= k < |cells| ==> ',' !in cells[k];
    SplitJoin(cells, ',');
  }

  /** A number cell reads back as the number. */
  lemma NumberCellReadsBack(i: int)
    ensures ParseInt(IntToString(i)) == Some(i)
  {
    ParseIntOfIntToString(i, []);
    assert IntToString(i) + [] == IntToString(i);
  }

  /** A line has exactly seven cells if and only if no text field holds a comma. */
  lemma CsvRowCellCount(s: StoredSession)
    ensures |Split(SessionToCsvRow(s), ',')| == 7 <==> PlainFields(s, ',')
  {
    SplitLength(SessionToCsvRow(s), ',');
    RowOccurrences(s, ',');
  }

  /**
   * With no comma in the text fields, splitting a line at commas gives back
   * every field: the numbers read back by `parseInt`, a missing completion
   * time as the empty cell, and the flag as "true" exactly when it is not 0.
   */
  lemma CsvRowFields(s: StoredSession)
    requires PlainFields(s, ',')
    ensures var cells := Split(SessionToCsvRow(s), ',');
      && |cells| == 7
      && ParseInt(cells[0]) == Some(s.id)
      && cells[1] == s.startedAt
      && cells[2] == (if s.completedAt.Some? then s.completedAt.value else "")
      && ParseInt(cells[3]) == Some(s.durationSeconds)
      && ParseInt(cells[4]) == Some(s.plannedDuration)
      && cells[5] == s.meditationType
      && (cells[6] == "true" <==> s.completed != 0)
      && (cells[6] == "true" || cells[6] == "false")
  {
    RowSplits(s);
    NumberCellReadsBack(s.id);
    NumberCellReadsBack(s.durationSeconds);
    NumberCellReadsBack(s.plannedDuration);
  }

  /** The header names seven columns, as many as a line has cells. */
  lemma HeaderColumns()
    ensures Split(CSV_HEADER, ',') == CSV_COLUMNS && |CSV_COLUMNS| == 7
  {
    var c := CSV_COLUMNS;
    assert ',' !in c[0] && ',' !in c[1] && ',' !in c[2] && ',' !in c[3];
    assert ',' !in c[4] && ',' !in c[5] && ',' !in c[6];
    SplitJoin(c, ',');
  }

  lemma HeaderSingleLine()
    ensures '\n' !in CSV_HEADER
  {
    var c := CSV_COLUMNS;
    assert '\n' !in c[0] && '\n' !in c[1] && '\n' !in c[2] && '\n' !in c[3];
    assert '\n' !in c[4] && '\n' !in c[5] && '\n' !in c[6];
    JoinAvoids(c, ",", '\n');
  }

  /** The line of each session, in the order given. */
  function CsvRows(sessions: seq<StoredSession>): (rows: seq<string>)
    ensures |rows| == |sessions|
  {
    seq(|sessions|, i requires 0 <= i < |sessions| => SessionToCsvRow(sessions[i]))
  }

  /** `toCSV(sessions)`: the header and then one line per session, joined by line breaks. */
  function ToCsv(sessions: seq<StoredSession>): string {
    Join([CSV_HEADER] + CsvRows(sessions), "\n")
  }

  /** With no sessions the export is the header alone. */
  lemma ToCsvEmpty()
    ensures ToCsv([]) == CSV_HEADER
  {
  }

  /** No text field of any session holds a line break. */
  predicate SingleLineFields(sessions: seq<StoredSession>) {
    forall i :: 0 <= i < |sessions| ==> PlainFields(sessions[i], '\n')
  }

  lemma RowsOccurrences(sessions: seq<StoredSession>)
    ensures OccurrencesIn(CsvRows(sessions), '\n') == 0 <==> SingleLineFields(sessions)
  {
    var rows := CsvRows(sessions);
    OccurrencesInZero(rows, '\n');
    forall i | 0 <= i < |sessions|
      ensures '\n' !in rows[i] <==> PlainFields(sessions[i], '\n')
    {
      RowOccurrences(sessions[i], '\n');
      assert rows[i] == SessionToCsvRow(sessions[i]);
    }
  }

  /** Lines joined under a first line hold one break per line after the first, plus those inside them. */
  lemma JoinedLinesBreaks(first: string, rest: seq<string>)
    requires '\n' !in first
    ensures Occurrences(Join([first] + rest, "\n"), '\n') == OccurrencesIn(rest, '\n') + |rest|
  {
    var all := [first] + rest;
    var sep: string := "\n";
    assert sep == ['\n'];
    assert multiset(sep)['\n'] == 1;
    var k := Occurrences(sep, '\n');
    assert k == 1;
    JoinOccurrences(all, sep, '\n');
    OccurrencesInCons(first, rest, '\n');
    assert (|all| - 1) * k == |rest|;
  }

  /** Lines joined under a first line split back into those lines exactly when none holds a break. */
  lemma JoinedLines(first: string, rest: seq<string>)
    requires '\n' !in first
    ensures |Split(Join([first] + rest, "\n"), '\n')| == |rest| + 1 <==> OccurrencesIn(rest, '\n') == 0
    ensures OccurrencesIn(rest, '\n') == 0 ==> Split(Join([first] + rest, "\n"), '\n') == [first] + rest
  {
    var all := [first] + rest;
    var text := Join(all, "\n");
    SplitLength(text, '\n');
    JoinedLinesBreaks(first, rest);
    if OccurrencesIn(rest, '\n') == 0 {
      OccurrencesInCons(first, rest, '\n');
      OccurrencesInZero(all, '\n');
      SplitJoin(all, '\n');
    }
  }

  /**
   * The export of `n` sessions has `n + 1` lines if and only if no text
   * field holds a line break; then the first line is the header and line
   * `i + 1` is the line of session `i`.
   */
  lemma ToCsvLines(sessions: seq<StoredSession>)
    ensures |Split(ToCsv(sessions), '\n')| == |sessions| + 1 <==> SingleLineFields(sessions)
    ensures SingleLineFields(sessions) ==>
      var lines := Split(ToCsv(sessions), '\n');
      lines[0] == CSV_HEADER
      && forall i :: 0 <= i < |sessions| ==> lines[i + 1] == SessionToCsvRow(sessions[i])
  {
    HeaderSingleLine();
    JoinedLines(CSV_HEADER, CsvRows(sessions));
    RowsOccurrences(sessions);
  }

  // -------------------------------------------------------------------- JSON

  /** The record written for a session by the JSON export: the flag as a boolean. */
  datatype JsonSession = JsonSession(
    id: int,
    startedAt: string,
    completedAt: Option<string>,
    durationSeconds: int,
    plannedDuration: int,
    meditationType: string,
    completed: bool)

  /** `{ ...s, completed: Boolean(s.completed) }`. */
  function ToJsonRecord(s: StoredSession): (j: JsonSession)
    ensures j.completed <==> s.completed != 0
  {
    JsonSession(s.id, s.startedAt, s.completedAt, s.durationSeconds, s.plannedDuration,
                s.meditationType, s.completed != 0)
  }

  /** The record of each session, in the order given. */
  function ToJsonRecords(sessions: seq<StoredSession>): (records: seq<JsonSession>)
    ensures |records| == |sessions|
  {
    seq(|sessions|, i requires 0 <= i < |sessions| => ToJsonRecord(sessions[i]))
  }

  /** The stored form of a record, with the flag back as 0 or 1. */
  function FromJsonRecord(j: JsonSession): StoredSession {
    StoredSession(j.id, j.startedAt, j.completedAt, j.durationSeconds, j.plannedDuration,
                  j.meditationType, if j.completed then 1 else 0)
  }

  /**
   * The JSON mapping loses nothing but the difference between nonzero
   * flags: every other field is kept, in the same order of sessions, and a
   * session stored with flag 0 or 1 comes back unchanged.
   */
  lemma JsonRecordsRoundTrip(sessions: seq<StoredSession>)
    requires forall i :: 0 <= i < |sessions| ==> sessions[i].completed == 0 || sessions[i].completed == 1
    ensures var records := ToJsonRecords(sessions);
      forall i :: 0 <= i < |sessions| ==> FromJsonRecord(records[i]) == sessions[i]
  {
  }
}
