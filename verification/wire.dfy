/** The flat text format of list and search results: one row per record,
    fields joined by '|', each row terminated by '\n', no escaping. `ReadRows`
    is the reader a consumer applies (split on '\n', then on '|'). */
module Wire {
  import opened Seqs
  import opened Text

  const FieldSep: char := '|'
  const RowEnd: char := '\n'

  /** A field the format can carry unambiguously. */
  predicate CleanField(f: string)
  {
    FieldSep !in f && RowEnd !in f
  }

  /** Rows that survive a write-then-read unchanged: each has at least one
      field and no field contains a delimiter. */
  predicate CleanRows(rows: seq<seq<string>>)
  {
    forall i :: 0 <= i < |rows| ==> |rows[i]| >= 1 && forall j :: 0 <= j < |rows[i]| ==> CleanField(rows[i][j])
  }

  /** One output row: `f0|f1|...|fn\n`. */
  function Line(fields: seq<string>): (r: string)
    ensures |r| >= 1 && r[|r| - 1] == RowEnd
  {
    JoinFields(fields) + [RowEnd]
  }

  /** All rows, each newline-terminated, in order. */
  function Render(rows: seq<seq<string>>): (r: string)
    ensures r == "" <==> |rows| == 0
    ensures r != "" ==> r[|r| - 1] == RowEnd
    decreases |rows|
  {
    if |rows| == 0 then "" else Line(rows[0]) + Render(rows[1..])
  }

  /** The fields of one row joined by '|', without the row end. */
  function JoinFields(fields: seq<string>): string
  {
    Join(fields, FieldSep)
  }

  function SplitFields(line: string): seq<string>
  {
    Split(line, FieldSep)
  }

  /** The rows of a newline-terminated text: the text after the last newline
      (empty for well-formed output) is not a row. */
  function ReadRows(text: string): (rows: seq<seq<string>>)
  {
    var lines := Split(text, RowEnd);
    Map(SplitFields, lines[..|lines| - 1])
  }

  lemma {:induction false} SplitRendered(rows: seq<seq<string>>)
    requires CleanRows(rows)
    ensures Split(Render(rows), RowEnd) == Map(JoinFields, rows) + [""]
    decreases |rows|
  {
    if |rows| == 0 {
    } else {
      var head := JoinFields(rows[0]);
      SplitRendered(rows[1..]);
      JoinAvoids(rows[0], FieldSep, RowEnd);
      SplitAfterPiece(head, RowEnd, Render(rows[1..]));
      assert Render(rows) == head + [RowEnd] + Render(rows[1..]);
      assert Map(JoinFields, rows) == [head] + Map(JoinFields, rows[1..]);
    }
  }

  /** Reading rendered rows gives back the rows, one per record: the format
      round-trips exactly when no field contains a delimiter. */
  lemma RenderThenRead(rows: seq<seq<string>>)
    requires CleanRows(rows)
    ensures ReadRows(Render(rows)) == rows
  {
    SplitRendered(rows);
    var lines := Split(Render(rows), RowEnd);
    assert lines[..|lines| - 1] == Map(JoinFields, rows);
    forall i | 0 <= i < |rows|
      ensures SplitFields(JoinFields(rows[i])) == rows[i]
    {
      SplitJoin(rows[i], FieldSep);
    }
  }
}
