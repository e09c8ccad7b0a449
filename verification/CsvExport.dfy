/**
 The CSV export of audit entries, and a reader for the format that section 2 of
 RFC 4180 describes.
 */
module CsvExport {
  import opened JsText
  import opened Options
  import opened CanonicalForm
  import opened AuditChain
  import opened AuditMetadata

  const COMMA: CodeUnit := 44
  const QUOTE: CodeUnit := 34
  const CR: CodeUnit := 13
  const LF: CodeUnit := 10
  const CRLF: Text := [CR, LF]

  const DEFAULT_EXPORT_MAX_RECORDS := 10000

  /** What the column names are made of. */
  type Letter = u: CodeUnit | u > 44 witness 97

  const SEQUENCE: seq<Letter> := [115, 101, 113, 117, 101, 110, 99, 101]
  const ACTION: seq<Letter> := [97, 99, 116, 105, 111, 110]
  const ACTOR_ID: seq<Letter> := [97, 99, 116, 111, 114, 95, 105, 100]
  const SUBJECT_ID: seq<Letter> := [115, 117, 98, 106, 101, 99, 116, 95, 105, 100]
  const OCCURRED_AT: seq<Letter> := [111, 99, 99, 117, 114, 114, 101, 100, 95, 97, 116]
  const PREVIOUS_HASH: seq<Letter> := [112, 114, 101, 118, 105, 111, 117, 115, 95, 104, 97, 115, 104]
  const HASH: seq<Letter> := [104, 97, 115, 104]
  const METADATA: seq<Letter> := [109, 101, 116, 97, 100, 97, 116, 97]

  /** The columns, in order. */
  const HEADER_CELLS: seq<seq<Letter>> :=
    [SEQUENCE, ACTION, ACTOR_ID, SUBJECT_ID, OCCURRED_AT, PREVIOUS_HASH, HASH, METADATA]

  // ---- Writing -------------------------------------------------------------

  predicate IsSpecial(u: CodeUnit) { u == QUOTE || u == COMMA || u == CR || u == LF }

  predicate NeedsQuotes(t: Text) { exists i | 0 <= i < |t| :: IsSpecial(t[i]) }

  function DoubleQuotes(t: Text): Text {
    if t == [] then [] else (if t[0] == QUOTE then [QUOTE, QUOTE] else [t[0]]) + DoubleQuotes(t[1..])
  }

  function Quoted(t: Text): Text {
    if NeedsQuotes(t) then [QUOTE] + DoubleQuotes(t) + [QUOTE] else t
  }

  function CsvCell(value: Text): Text { Quoted(NeutralizeFormulaPrefix(value)) }

  /** The projection of an entry into eight texts for line-oriented sinks. */
  function LogFields(p: Platform, e: Entry): (r: seq<Text>)
    ensures |r| == 8
  {
    [DecimalInt(e.content.sequence), EscapeForText(e.content.action),
     EscapeForText(e.content.actorId.GetOr([])), EscapeForText(e.content.subjectId.GetOr([])),
     p.iso(e.content.occurredAt), e.content.previousHash, e.hash,
     EscapeJsonLineTerminators(p.json(e.content.metadata))]
  }

  /** Under each heading stands what it names: the texts can be read back, and an absent id is an empty one. */
  lemma {:induction false} ColumnsHoldWhatTheyName(p: Platform, e: Entry, i: nat)
    requires i < 8
    ensures var field, c := LogFields(p, e)[i], e.content;
      && (HEADER_CELLS[i] == SEQUENCE ==> field == DecimalInt(c.sequence))
      && (HEADER_CELLS[i] == ACTION ==> Unescape(field) == c.action)
      && (HEADER_CELLS[i] == ACTOR_ID ==> Unescape(field) == c.actorId.GetOr([]))
      && (HEADER_CELLS[i] == SUBJECT_ID ==> Unescape(field) == c.subjectId.GetOr([]))
      && (HEADER_CELLS[i] == OCCURRED_AT ==> field == p.iso(c.occurredAt))
      && (HEADER_CELLS[i] == PREVIOUS_HASH ==> field == c.previousHash)
      && (HEADER_CELLS[i] == HASH ==> field == e.hash)
      && (HEADER_CELLS[i] == METADATA ==> field == EscapeJsonLineTerminators(p.json(c.metadata)))
  {
    hide Unescape, EscapeForText, DecimalInt;
    UnescapeEscaped(e.content.action);
    UnescapeEscaped(e.content.actorId.GetOr([]));
    UnescapeEscaped(e.content.subjectId.GetOr([]));
    HeadingsDiffer();
  }

  lemma HeadingsDiffer()
    ensures forall i, j | 0 <= i < j < 8 :: HEADER_CELLS[i] != HEADER_CELLS[j]
  {
    assert |SEQUENCE| == 8 && |ACTION| == 6 && |ACTOR_ID| == 8 && |SUBJECT_ID| == 10;
    assert |OCCURRED_AT| == 11 && |PREVIOUS_HASH| == 13 && |HASH| == 4 && |METADATA| == 8;
    assert SEQUENCE[0] == 115 && ACTOR_ID[0] == 97 && METADATA[0] == 109;
  }

  function Cells(fields: seq<Text>): (r: seq<Text>)
    ensures |r| == |fields| && forall i | 0 <= i < |fields| :: r[i] == CsvCell(fields[i])
  {
    if fields == [] then [] else [CsvCell(fields[0])] + Cells(fields[1..])
  }

  function CsvRow(p: Platform, e: Entry): Text { Join(Cells(LogFields(p, e)), COMMA) }

  function Rows(p: Platform, entries: seq<Entry>): Text {
    if entries == [] then [] else CsvRow(p, entries[0]) + CRLF + Rows(p, entries[1..])
  }

  function CsvBody(p: Platform, entries: seq<Entry>): Text {
    Join(HEADER_CELLS, COMMA) + CRLF + Rows(p, entries)
  }

  // ---- Reading -------------------------------------------------------------

  /** The rest of a quoted cell, behind its opening quote. */
  function ReadQuoted(t: Text): (r: Option<(Text, Text)>)
    ensures r.Some? ==> |r.value.1| <= |t|
  {
    if t == [] then None
    else if t[0] == QUOTE && (|t| == 1 || t[1] != QUOTE) then Some(([], t[1..]))
    else
      match ReadQuoted(if t[0] == QUOTE then t[2..] else t[1..])
      case None => None
      case Some((cell, rest)) => Some(([t[0]] + cell, rest))
  }

  /** A cell without quotes, up to the next comma, line break or end. */
  function ReadPlain(t: Text): (r: Option<(Text, Text)>)
    ensures r.Some? ==> |r.value.1| <= |t|
  {
    if t == [] || t[0] == COMMA || t[0] == CR || t[0] == LF then Some(([], t))
    else if t[0] == QUOTE then None
    else
      match ReadPlain(t[1..])
      case None => None
      case Some((cell, rest)) => Some(([t[0]] + cell, rest))
  }

  function ReadCell(t: Text): (r: Option<(Text, Text)>)
    ensures r.Some? ==> |r.value.1| <= |t|
  {
    if t != [] && t[0] == QUOTE then ReadQuoted(t[1..]) else ReadPlain(t)
  }

  /** Cells with a comma between them. */
  function ReadRecord(t: Text): (r: Option<(seq<Text>, Text)>)
    ensures r.Some? ==> |r.value.1| <= |t|
    decreases |t|
  {
    match ReadCell(t)
    case None => None
    case Some((cell, rest)) =>
      if rest == [] || rest[0] != COMMA then Some(([cell], rest))
      else
        match ReadRecord(rest[1..])
        case None => None
        case Some((cells, end)) => Some(([cell] + cells, end))
  }

  /** Records with a line break behind each; it may be missing behind the last. */
  function ReadFile(t: Text): Option<seq<seq<Text>>>
    decreases |t|
  {
    match ReadRecord(t)
    case None => None
    case Some((cells, rest)) =>
      if rest == [] || rest == CRLF then Some([cells])
      else if !(CRLF <= rest) then None
      else
        match ReadFile(rest[2..])
        case None => None
        case Some(records) => Some([cells] + records)
  }

  // ---- Reading undoes writing ----------------------------------------------

  predicate EndsCell(rest: Text) { rest == [] || rest[0] == COMMA || rest[0] == CR || rest[0] == LF }

  lemma {:induction false} ReadQuotedOfDoubled(v: Text, rest: Text)
    requires EndsCell(rest)
    ensures ReadQuoted(DoubleQuotes(v) + [QUOTE] + rest) == Some((v, rest))
  {
    if v == [] {
      assert DoubleQuotes(v) + [QUOTE] + rest == [QUOTE] + rest;
    } else {
      ReadQuotedOfDoubled(v[1..], rest);
      var t, tail := DoubleQuotes(v) + [QUOTE] + rest, DoubleQuotes(v[1..]) + [QUOTE] + rest;
      assert t == (if v[0] == QUOTE then [QUOTE, QUOTE] else [v[0]]) + tail;
      assert v[0] == QUOTE ==> t[1] == QUOTE && t[2..] == tail;
      assert v[0] != QUOTE ==> t[1..] == tail;
      assert [v[0]] + v[1..] == v;
    }
  }

  lemma {:induction false} ReadPlainOf(v: Text, rest: Text)
    requires !NeedsQuotes(v) && EndsCell(rest)
    ensures ReadPlain(v + rest) == Some((v, rest))
  {
    if v == [] {
      assert v + rest == rest;
    } else {
      assert !IsSpecial(v[0]);
      assert forall i | 0 <= i < |v[1..]| :: v[1..][i] == v[i + 1];
      ReadPlainOf(v[1..], rest);
      assert (v + rest)[1..] == v[1..] + rest && [v[0]] + v[1..] == v;
    }
  }

  lemma ReadCellOfQuoted(v: Text, rest: Text)
    requires EndsCell(rest)
    ensures ReadCell(Quoted(v) + rest) == Some((v, rest))
  {
    hide DoubleQuotes, ReadQuoted, ReadPlain;
    if NeedsQuotes(v) {
      ReadQuotedOfDoubled(v, rest);
      assert (Quoted(v) + rest)[1..] == DoubleQuotes(v) + [QUOTE] + rest;
    } else {
      ReadPlainOf(v, rest);
      assert v != [] ==> !IsSpecial(v[0]);
    }
  }

  function QuotedAll(cells: seq<Text>): (r: seq<Text>)
    ensures |r| == |cells| && forall i | 0 <= i < |cells| :: r[i] == Quoted(cells[i])
  {
    if cells == [] then [] else [Quoted(cells[0])] + QuotedAll(cells[1..])
  }

  function Line(cells: seq<Text>): Text { Join(QuotedAll(cells), COMMA) }

  lemma {:induction false} ReadRecordOfLine(cells: seq<Text>, rest: Text)
    requires cells != [] && (rest == [] || rest[0] == CR)
    ensures ReadRecord(Line(cells) + rest) == Some((cells, rest))
  {
    hide Quoted, ReadCell;
    if |cells| == 1 {
      assert Line(cells) == Quoted(cells[0]) && cells == [cells[0]];
      ReadCellOfQuoted(cells[0], rest);
    } else {
      var tail := [COMMA] + (Line(cells[1..]) + rest);
      assert Line(cells) + rest == Quoted(cells[0]) + tail;
      ReadCellOfQuoted(cells[0], tail);
      assert tail[1..] == Line(cells[1..]) + rest && [cells[0]] + cells[1..] == cells;
      ReadRecordOfLine(cells[1..], rest);
    }
  }

  function Lines(records: seq<seq<Text>>): Text {
    if records == [] then [] else Line(records[0]) + CRLF + Lines(records[1..])
  }

  lemma {:induction false} ReadFileOfLines(records: seq<seq<Text>>)
    requires records != [] && forall i | 0 <= i < |records| :: records[i] != []
    ensures ReadFile(Lines(records)) == Some(records)
  {
    hide Line, ReadRecord;
    var rest := CRLF + Lines(records[1..]);
    assert Lines(records) == Line(records[0]) + rest;
    ReadRecordOfLine(records[0], rest);
    assert [records[0]] + records[1..] == records;
    if |records| == 1 {
      assert rest == CRLF && records == [records[0]];
    } else {
      LinesNotEmpty(records[1..]);
      assert rest[2..] == Lines(records[1..]) && CRLF <= rest;
      ReadFileOfLines(records[1..]);
    }
  }

  lemma {:induction false} LinesNotEmpty(records: seq<seq<Text>>)
    requires records != []
    ensures Lines(records) != []
  {
    assert |Lines(records)| >= |CRLF|;
  }

  /** The eight cells of an entry. */
  function Neutralized(fields: seq<Text>): (r: seq<Text>)
    ensures |r| == |fields| && forall i | 0 <= i < |fields| :: r[i] == NeutralizeFormulaPrefix(fields[i])
  {
    if fields == [] then [] else [NeutralizeFormulaPrefix(fields[0])] + Neutralized(fields[1..])
  }

  function ExportedRecords(p: Platform, entries: seq<Entry>): (r: seq<seq<Text>>)
    ensures |r| == |entries|
    ensures forall i | 0 <= i < |entries| :: r[i] == Neutralized(LogFields(p, entries[i]))
  {
    if entries == [] then [] else [Neutralized(LogFields(p, entries[0]))] + ExportedRecords(p, entries[1..])
  }

  lemma RowIsLine(p: Platform, e: Entry)
    ensures CsvRow(p, e) == Line(Neutralized(LogFields(p, e)))
  {
    hide LogFields, Quoted, NeutralizeFormulaPrefix;
    assert Cells(LogFields(p, e)) == QuotedAll(Neutralized(LogFields(p, e)));
  }

  lemma {:induction false} RowsAreLines(p: Platform, entries: seq<Entry>)
    ensures Rows(p, entries) == Lines(ExportedRecords(p, entries))
  {
    hide CsvRow, Line, Neutralized, LogFields;
    if entries != [] {
      RowIsLine(p, entries[0]);
      RowsAreLines(p, entries[1..]);
      assert ExportedRecords(p, entries)[1..] == ExportedRecords(p, entries[1..]);
    }
  }

  lemma LettersArePlain(t: seq<Letter>)
    ensures Quoted(t) == t
  {
    assert forall i | 0 <= i < |t| :: !IsSpecial(t[i]);
  }

  lemma {:induction false} LettersAreLine(cells: seq<seq<Letter>>)
    ensures Line(cells) == Join(cells, COMMA)
  {
    hide Quoted, Join;
    forall i | 0 <= i < |cells| ensures QuotedAll(cells)[i] == cells[i] {
      LettersArePlain(cells[i]);
    }
    assert QuotedAll(cells) == cells;
  }

  /**
   The export parses back. A reader of the format finds the header and exactly
   one row of eight cells per entry, each cell the neutralized log field,
   whatever quotes, commas or line breaks the entry holds.
   */
  lemma {:induction false} BodyReadsBack(p: Platform, entries: seq<Entry>)
    ensures ReadFile(CsvBody(p, entries)) == Some([HEADER_CELLS] + ExportedRecords(p, entries))
  {
    hide Line, Lines, Join, ReadFile, Rows, LogFields, Neutralized;
    var records := [HEADER_CELLS] + ExportedRecords(p, entries);
    LettersAreLine(HEADER_CELLS);
    RowsAreLines(p, entries);
    LinesUnfold(records);
    assert records[1..] == ExportedRecords(p, entries);
    ReadFileOfLines(records);
  }

  lemma {:induction false} LinesUnfold(records: seq<seq<Text>>)
    requires records != []
    ensures Lines(records) == Line(records[0]) + CRLF + Lines(records[1..])
  {
  }

  // ---- One line per entry ---------------------------------------------------

  ghost predicate BreakFree(t: Text) { forall i | 0 <= i < |t| :: t[i] != CR && t[i] != LF }

  /** What the platform and the row supply as it stands: ISO dates, hexadecimal hashes, JSON text. */
  ghost predicate SafeParts(p: Platform, e: Entry) {
    && BreakFree(p.iso(e.content.occurredAt)) && BreakFree(e.content.previousHash) && BreakFree(e.hash)
    && forall i | 0 <= i < |p.json(e.content.metadata)| :: p.json(e.content.metadata)[i] >= 0x20
  }

  lemma {:induction false} EscapedIsBreakFree(t: Text)
    ensures BreakFree(EscapeForText(t))
  {
    hide EscapeForText;
    EscapedIsControlFree(t);
    assert forall i | 0 <= i < |EscapeForText(t)| :: !IsControl(EscapeForText(t)[i]);
  }

  lemma FieldsAreBreakFree(p: Platform, e: Entry)
    requires SafeParts(p, e)
    ensures forall i | 0 <= i < 8 :: BreakFree(LogFields(p, e)[i])
  {
    hide EscapeForText, EscapeJsonLineTerminators, DecimalInt;
    EscapedIsBreakFree(e.content.action);
    EscapedIsBreakFree(e.content.actorId.GetOr([]));
    EscapedIsBreakFree(e.content.subjectId.GetOr([]));
    JsonBecomesLineSafe(p.json(e.content.metadata));
    SequenceIsBreakFree(e.content.sequence);
  }

  lemma SequenceIsBreakFree(n: int)
    ensures BreakFree(DecimalInt(n))
  {
    var digits := Decimal(if n < 0 then -n else n);
    assert forall i | 0 <= i < |digits| :: IsDigit(digits[i]);
  }

  /** No cell of a row holds a raw line break. */
  lemma CellsHoldNoBreak(p: Platform, e: Entry)
    requires SafeParts(p, e)
    ensures forall i | 0 <= i < 8 :: BreakFree(Neutralized(LogFields(p, e))[i])
  {
    hide LogFields, SafeParts;
    FieldsAreBreakFree(p, e);
    forall i | 0 <= i < 8 ensures BreakFree(Neutralized(LogFields(p, e))[i]) {
      assert BreakFree(LogFields(p, e)[i]);
    }
  }

  function Count(t: Text, u: CodeUnit): nat {
    if t == [] then 0 else (if t[0] == u then 1 else 0) + Count(t[1..], u)
  }

  lemma {:induction false} CountOfConcat(a: Text, b: Text, u: CodeUnit)
    ensures Count(a + b, u) == Count(a, u) + Count(b, u)
  {
    if a == [] {
      assert a + b == b;
    } else {
      CountOfConcat(a[1..], b, u);
      assert (a + b)[1..] == a[1..] + b;
    }
  }

  lemma {:induction false} BreakFreeCounts(t: Text)
    requires BreakFree(t)
    ensures Count(t, LF) == 0
  {
    if t != [] {
      assert BreakFree(t[1..]);
      BreakFreeCounts(t[1..]);
    }
  }

  lemma {:induction false} DoubleQuotesIsBreakFree(t: Text)
    requires BreakFree(t)
    ensures BreakFree(DoubleQuotes(t))
  {
    if t != [] {
      assert BreakFree(t[1..]);
      DoubleQuotesIsBreakFree(t[1..]);
    }
  }

  lemma {:induction false} LineIsBreakFree(cells: seq<Text>)
    requires forall i | 0 <= i < |cells| :: BreakFree(cells[i])
    ensures BreakFree(Line(cells))
  {
    hide DoubleQuotes;
    if cells != [] {
      DoubleQuotesIsBreakFree(cells[0]);
      assert BreakFree(Quoted(cells[0]));
      LineIsBreakFree(cells[1..]);
      assert |cells| > 1 ==> Line(cells) == Quoted(cells[0]) + [COMMA] + Line(cells[1..]);
    }
  }

  lemma BreakCounts()
    ensures Count(CRLF, LF) == 1
  {
    var end: Text := [LF];
    assert end[1..] == [] && CRLF[1..] == end;
    assert Count(end, LF) == 1;
  }

  lemma {:induction false} LinesCount(records: seq<seq<Text>>)
    requires forall i, j | 0 <= i < |records| && 0 <= j < |records[i]| :: BreakFree(records[i][j])
    ensures Count(Lines(records), LF) == |records|
  {
    hide Line, BreakFree;
    if records != [] {
      LineIsBreakFree(records[0]);
      BreakFreeCounts(Line(records[0]));
      LinesCount(records[1..]);
      CountOfConcat(Line(records[0]) + CRLF, Lines(records[1..]), LF);
      CountOfConcat(Line(records[0]), CRLF, LF);
      BreakCounts();
    }
  }

  /** The body has one line per entry and one for the header, so counting lines counts entries. */
  lemma OneLinePerEntry(p: Platform, entries: seq<Entry>)
    requires forall i | 0 <= i < |entries| :: SafeParts(p, entries[i])
    ensures Count(CsvBody(p, entries), LF) == |entries| + 1
  {
    hide Line, Lines, Join, Rows, LogFields, Neutralized, Count, SafeParts, BreakFree;
    var records := [HEADER_CELLS] + ExportedRecords(p, entries);
    LettersAreLine(HEADER_CELLS);
    RowsAreLines(p, entries);
    LinesUnfold(records);
    assert records[1..] == ExportedRecords(p, entries);
    forall i, j | 0 <= i < |records| && 0 <= j < |records[i]| ensures BreakFree(records[i][j]) {
      if i == 0 {
        LetterIsBreakFree(HEADER_CELLS[j]);
      } else {
        CellsHoldNoBreak(p, entries[i - 1]);
      }
    }
    LinesCount(records);
  }

  lemma LetterIsBreakFree(t: seq<Letter>)
    ensures BreakFree(t)
  {
  }

  // ---- The encoder ----------------------------------------------------------

  lemma {:induction false} RowsOfAppend(p: Platform, entries: seq<Entry>, e: Entry)
    ensures Rows(p, entries + [e]) == Rows(p, entries) + CsvRow(p, e) + CRLF
  {
    hide CsvRow;
    if entries == [] {
      assert entries + [e] == [e];
    } else {
      RowsOfAppend(p, entries[1..], e);
      assert (entries + [e])[1..] == entries[1..] + [e];
    }
  }

  /**
   The encoder, which stops reading once it has all the rows it may write. It
   says that it was cut short exactly when there was more to export.
   */
  method EncodeAuditExport(p: Platform, entries: seq<Entry>, maxRecords: Option<int>)
    returns (body: Text, recordCount: nat, truncated: bool)
    ensures var limit := if maxRecords.None? then DEFAULT_EXPORT_MAX_RECORDS else maxRecords.value;
      && recordCount <= |entries|
      && (truncated <==> |entries| > limit && entries != [])
      && recordCount == (if !truncated then |entries| else if limit > 0 then limit else 0)
    ensures ReadFile(body) == Some([HEADER_CELLS] + ExportedRecords(p, entries[..recordCount]))
  {
    hide CsvRow, ReadFile, Join;
    var limit := maxRecords.GetOr(DEFAULT_EXPORT_MAX_RECORDS);
    var rows := [];
    recordCount, truncated := 0, false;
    for i := 0 to |entries|
      invariant recordCount == i && !truncated && (i > 0 ==> i <= limit)
      invariant rows == Rows(p, entries[..i])
    {
      if recordCount >= limit {
        truncated := true;
        break;
      }
      assert entries[..i + 1] == entries[..i] + [entries[i]];
      RowsOfAppend(p, entries[..i], entries[i]);
      rows := rows + CsvRow(p, entries[i]) + CRLF;
      recordCount := recordCount + 1;
    }
    body := Join(HEADER_CELLS, COMMA) + CRLF + rows;
    assert entries[..|entries|] == entries;
    BodyReadsBack(p, entries[..recordCount]);
  }
}
