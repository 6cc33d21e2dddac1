/**
 The submissions export of `internal/handler/forms.go`, proved against a reader for
 section 2 of RFC 4180 that breaks records at LF.
 */
module CsvExport {
  import opened Common
  import Text

  // ---------- The reader ----------

  /** A parsed piece and what is left of the input. */
  datatype Parsed<T> = Parsed(value: T, rest: string)

  /** Characters that an unquoted field cannot hold. */
  predicate IsSpecial(c: char)
  {
    c == ',' || c == '"' || c == '\n' || c == '\r'
  }

  /** The inside of a quoted field, up to and including its closing quote. */
  function ReadQuoted(s: string): Option<Parsed<string>>
  {
    if s == "" then None
    else if s[0] == '"' then
      if |s| > 1 && s[1] == '"' then
        match ReadQuoted(s[2..])
        case None => None
        case Some(p) => Some(Parsed("\"" + p.value, p.rest))
      else Some(Parsed("", s[1..]))
    else
      match ReadQuoted(s[1..])
      case None => None
      case Some(p) => Some(Parsed([s[0]] + p.value, p.rest))
  }

  function ReadPlain(s: string): (p: Parsed<string>)
    ensures |p.rest| <= |s|
  {
    if s == "" || IsSpecial(s[0]) then Parsed("", s)
    else var p := ReadPlain(s[1..]); Parsed([s[0]] + p.value, p.rest)
  }

  function ReadField(s: string): Option<Parsed<string>>
  {
    if s != "" && s[0] == '"' then ReadQuoted(s[1..]) else Some(ReadPlain(s))
  }

  lemma {:induction false} ReadQuotedShrinks(s: string)
    ensures ReadQuoted(s).Some? ==> |ReadQuoted(s).value.rest| < |s|
    decreases |s|
  {
    if |s| > 1 && s[0] == '"' && s[1] == '"' {
      ReadQuotedShrinks(s[2..]);
    } else if s != "" && s[0] != '"' {
      ReadQuotedShrinks(s[1..]);
    }
  }

  lemma ReadFieldShrinks(s: string)
    ensures ReadField(s).Some? ==> |ReadField(s).value.rest| <= |s|
  {
    if s != "" { ReadQuotedShrinks(s[1..]); }
  }

  /** Fields between commas, ended by LF or by the end of the text; anything else is malformed. */
  function ReadRecord(s: string): Option<Parsed<seq<string>>>
    decreases |s|
  {
    ReadFieldShrinks(s);
    match ReadField(s)
    case None => None
    case Some(f) =>
      if f.rest == "" then Some(Parsed([f.value], ""))
      else if f.rest[0] == '\n' then Some(Parsed([f.value], f.rest[1..]))
      else if f.rest[0] == ',' then
        match ReadRecord(f.rest[1..])
        case None => None
        case Some(r) => Some(Parsed([f.value] + r.value, r.rest))
      else None
  }

  lemma {:induction false} ReadRecordShrinks(s: string)
    requires s != ""
    ensures ReadRecord(s).Some? ==> |ReadRecord(s).value.rest| < |s|
    decreases |s|
  {
    ReadFieldShrinks(s);
    if ReadField(s).Some? {
      var f := ReadField(s).value;
      if f.rest != "" && f.rest[0] == ',' && f.rest[1..] != "" { ReadRecordShrinks(f.rest[1..]); }
    }
  }

  function ReadDocument(s: string): Option<seq<seq<string>>>
    decreases |s|
  {
    if s == "" then Some([]) else
      ReadRecordShrinks(s);
      match ReadRecord(s)
      case None => None
      case Some(r) =>
        match ReadDocument(r.rest)
        case None => None
        case Some(rows) => Some([r.value] + rows)
  }

  // ---------- The printer, as values ----------

  /** `strings.TrimLeft(value, " \t")`. */
  function TrimBlanks(value: string): string
  {
    if value != "" && (value[0] == ' ' || value[0] == '\t') then TrimBlanks(value[1..]) else value
  }

  predicate StartsFormula(value: string)
  {
    var trimmed := TrimBlanks(value);
    trimmed != "" && trimmed[0] in "=+-@"
  }

  function NeutralizeFormula(value: string): string
  {
    if StartsFormula(value) then "'" + value else value
  }

  /** `strings.ReplaceAll` of each quote by two. */
  function DoubleQuotes(v: string): string
  {
    if v == "" then ""
    else (if v[0] == '"' then "\"\"" else [v[0]]) + DoubleQuotes(v[1..])
  }

  predicate NeedsQuoting(v: string)
  {
    exists i :: 0 <= i < |v| && IsSpecial(v[i])
  }

  function EscapeCell(value: string): string
  {
    var v := DoubleQuotes(NeutralizeFormula(value));
    if NeedsQuoting(v) then "\"" + v + "\"" else v
  }

  function JoinCells(cells: seq<string>): string
  {
    if cells == [] then ""
    else if |cells| == 1 then cells[0]
    else cells[0] + "," + JoinCells(cells[1..])
  }

  function EscapeCells(values: seq<string>): seq<string>
  {
    seq(|values|, i requires 0 <= i < |values| => EscapeCell(values[i]))
  }

  function RowText(values: seq<string>): string
  {
    JoinCells(EscapeCells(values))
  }

  function DocumentText(rows: seq<seq<string>>): string
  {
    if rows == [] then "" else RowText(rows[0]) + "\n" + DocumentText(rows[1..])
  }

  function NeutralizeRow(values: seq<string>): seq<string>
  {
    seq(|values|, i requires 0 <= i < |values| => NeutralizeFormula(values[i]))
  }

  function NeutralizeRows(rows: seq<seq<string>>): seq<seq<string>>
  {
    seq(|rows|, i requires 0 <= i < |rows| => NeutralizeRow(rows[i]))
  }

  // ---------- Neutralising ----------

  lemma {:induction false} FirstAfterBlanks(value: string)
    ensures var trimmed := TrimBlanks(value);
            && |trimmed| <= |value| && trimmed == value[|value| - |trimmed|..]
            && (forall j :: 0 <= j < |value| - |trimmed| ==> value[j] == ' ' || value[j] == '\t')
            && (trimmed != "" ==> trimmed[0] != ' ' && trimmed[0] != '\t')
  {
    if value != "" && (value[0] == ' ' || value[0] == '\t') {
      FirstAfterBlanks(value[1..]);
      var n := |value| - |TrimBlanks(value)|;
      assert value[1..][n - 1..] == value[n..];
      assert forall j :: 1 <= j < n ==> value[j] == value[1..][j - 1];
    }
  }

  /** Position `i` holds the first character that is not a space or tab, and it can start a formula. */
  ghost predicate IsFormulaStart(value: string, i: int)
  {
    && 0 <= i < |value| && (value[i] == '=' || value[i] == '+' || value[i] == '-' || value[i] == '@')
    && forall j :: 0 <= j < i ==> value[j] == ' ' || value[j] == '\t'
  }

  /** A quote is put in front exactly of cells that start a formula behind spaces and tabs; others stay. */
  lemma NeutralizeFormulaExactlyWhen(value: string)
    ensures (exists i :: IsFormulaStart(value, i)) ==> NeutralizeFormula(value) == "'" + value
    ensures (forall i :: !IsFormulaStart(value, i)) ==> NeutralizeFormula(value) == value
  {
    var trimmed := TrimBlanks(value);
    var n := |value| - |trimmed|;
    FirstAfterBlanks(value);
    if StartsFormula(value) {
      assert value[n] == trimmed[0];
      assert IsFormulaStart(value, n);
    }
    if i :| IsFormulaStart(value, i) {
      assert n <= i;
      assert value[n] == trimmed[0];
    }
  }

  /** After neutralising, no cell starts a formula, even behind spaces and tabs. */
  lemma NeutralizedIsInert(value: string)
    ensures !StartsFormula(NeutralizeFormula(value))
    ensures NeutralizeFormula(NeutralizeFormula(value)) == NeutralizeFormula(value)
  {
    if StartsFormula(value) {
      assert TrimBlanks("'" + value) == "'" + value;
    }
  }

  /** The only cells that export alike are a formula and the same text already quoted. */
  lemma NeutralizeCollisions(a: string, b: string)
    ensures NeutralizeFormula(a) == NeutralizeFormula(b) <==>
            a == b || (StartsFormula(a) && b == "'" + a) || (StartsFormula(b) && a == "'" + b)
  {
    NeutralizedIsInert(a);
    NeutralizedIsInert(b);
    if StartsFormula(a) && StartsFormula(b) && "'" + a == "'" + b {
      assert a == ("'" + a)[1..] == ("'" + b)[1..] == b;
    }
    if StartsFormula(a) && b == "'" + a { assert !StartsFormula(b); }
    if StartsFormula(b) && a == "'" + b { assert !StartsFormula(a); }
  }

  // ---------- Reading back what was printed ----------

  lemma {:induction false} DoubledHasNoLoneSpecial(v: string)
    ensures NeedsQuoting(DoubleQuotes(v)) <==> NeedsQuoting(v)
    ensures !NeedsQuoting(v) ==> DoubleQuotes(v) == v
  {
    if v != "" {
      var d, t := DoubleQuotes(v), DoubleQuotes(v[1..]);
      DoubledHasNoLoneSpecial(v[1..]);
      assert IsSpecial(v[0]) ==> IsSpecial(d[0]);
      if NeedsQuoting(v[1..]) {
        var i :| 0 <= i < |v[1..]| && IsSpecial(v[1..][i]);
        assert IsSpecial(v[i + 1]);
        var j :| 0 <= j < |t| && IsSpecial(t[j]);
        assert d[j + |d| - |t|] == t[j];
      }
      if NeedsQuoting(d) && !IsSpecial(v[0]) {
        var i :| 0 <= i < |d| && IsSpecial(d[i]);
        assert d[i] == t[i - 1];
      }
      if NeedsQuoting(v) && !IsSpecial(v[0]) {
        var i :| 0 <= i < |v| && IsSpecial(v[i]);
        assert v[1..][i - 1] == v[i];
      }
    }
  }

  lemma {:induction false} QuotedReadsBack(v: string, rest: string)
    requires rest == "" || rest[0] != '"'
    ensures ReadQuoted(DoubleQuotes(v) + "\"" + rest) == Some(Parsed(v, rest))
    decreases |v|
  {
    var s := DoubleQuotes(v) + "\"" + rest;
    if v == "" {
      assert s == "\"" + rest;
      assert s[1..] == rest;
    } else {
      QuotedReadsBack(v[1..], rest);
      var tail := DoubleQuotes(v[1..]) + "\"" + rest;
      if v[0] == '"' {
        assert s == "\"\"" + tail && s[2..] == tail;
      } else {
        assert s == [v[0]] + tail && s[1..] == tail;
      }
      assert v == [v[0]] + v[1..];
    }
  }

  lemma {:induction false} PlainReadsBack(v: string, rest: string)
    requires !NeedsQuoting(v) && (rest == "" || IsSpecial(rest[0]))
    ensures ReadPlain(v + rest) == Parsed(v, rest)
  {
    if v == "" {
      assert v + rest == rest;
    } else {
      assert !IsSpecial(v[0]);
      assert forall i :: 0 <= i < |v[1..]| ==> v[1..][i] == v[i + 1];
      PlainReadsBack(v[1..], rest);
      assert (v + rest)[1..] == v[1..] + rest;
      assert v == [v[0]] + v[1..];
    }
  }

  lemma QuotedCellReadsBack(v: string, rest: string)
    requires rest == "" || rest[0] != '"'
    ensures ReadField("\"" + DoubleQuotes(v) + "\"" + rest) == Some(Parsed(v, rest))
  {
    QuotedReadsBack(v, rest);
    var inside := DoubleQuotes(v) + "\"" + rest;
    var s := "\"" + DoubleQuotes(v) + "\"" + rest;
    assert s == "\"" + inside;
    assert s[0] == '"' && s[1..] == inside;
  }

  lemma PlainCellReadsBack(v: string, rest: string)
    requires !NeedsQuoting(v) && rest != "" && IsSpecial(rest[0]) && rest[0] != '"'
    ensures ReadField(v + rest) == Some(Parsed(v, rest))
  {
    PlainReadsBack(v, rest);
    if v != "" { assert !IsSpecial(v[0]); }
  }

  lemma CellReadsBack(value: string, rest: string)
    requires rest != "" && (rest[0] == ',' || rest[0] == '\n')
    ensures ReadField(EscapeCell(value) + rest) == Some(Parsed(NeutralizeFormula(value), rest))
  {
    var v := NeutralizeFormula(value);
    DoubledHasNoLoneSpecial(v);
    if NeedsQuoting(v) {
      QuotedCellReadsBack(v, rest);
    } else {
      PlainCellReadsBack(v, rest);
    }
  }

  /** A cell is printed as it is, unless it holds a comma, a quote or a line break; then in quotes. */
  lemma CellIsQuotedExactlyWhenSpecial(value: string)
    ensures var v := NeutralizeFormula(value);
            if exists i :: 0 <= i < |v| && v[i] in {',', '"', '\n', '\r'}
            then EscapeCell(value) == "\"" + DoubleQuotes(v) + "\"" else EscapeCell(value) == v
  {
    var v := NeutralizeFormula(value);
    DoubledHasNoLoneSpecial(v);
    if i :| 0 <= i < |v| && v[i] in {',', '"', '\n', '\r'} { assert IsSpecial(v[i]); }
  }

  lemma RecordEnds(s: string, v: string, rest: string)
    requires ReadField(s) == Some(Parsed(v, "\n" + rest))
    ensures ReadRecord(s) == Some(Parsed([v], rest))
  {
    assert ("\n" + rest)[1..] == rest;
  }

  lemma RecordGoesOn(s: string, v: string, tail: string, cells: seq<string>, rest: string)
    requires ReadField(s) == Some(Parsed(v, "," + tail)) && ReadRecord(tail) == Some(Parsed(cells, rest))
    ensures ReadRecord(s) == Some(Parsed([v] + cells, rest))
  {
    assert ("," + tail)[1..] == tail;
  }

  lemma RowTextSplits(values: seq<string>)
    requires |values| > 1
    ensures RowText(values) == EscapeCell(values[0]) + "," + RowText(values[1..])
  {
    assert EscapeCells(values)[1..] == EscapeCells(values[1..]);
  }

  lemma RowTextGoesOn(values: seq<string>, rest: string)
    requires |values| > 1
    ensures RowText(values) + "\n" + rest == EscapeCell(values[0]) + ("," + (RowText(values[1..]) + "\n" + rest))
  {
    RowTextSplits(values);
  }

  lemma RowTextEnds(values: seq<string>, rest: string)
    requires |values| == 1
    ensures RowText(values) + "\n" + rest == EscapeCell(values[0]) + ("\n" + rest)
  {
  }

  lemma NeutralizeRowSplits(values: seq<string>)
    requires values != []
    ensures NeutralizeRow(values) == [NeutralizeFormula(values[0])] + NeutralizeRow(values[1..])
  {
  }

  lemma {:induction false} RowReadsBack(values: seq<string>, rest: string)
    requires values != []
    ensures ReadRecord(RowText(values) + "\n" + rest) == Some(Parsed(NeutralizeRow(values), rest))
    decreases |values|
  {
    var s := RowText(values) + "\n" + rest;
    NeutralizeRowSplits(values);
    if |values| == 1 {
      RowTextEnds(values, rest);
      CellReadsBack(values[0], "\n" + rest);
      RecordEnds(s, NeutralizeFormula(values[0]), rest);
      assert NeutralizeRow(values) == [NeutralizeFormula(values[0])];
    } else {
      var tail := RowText(values[1..]) + "\n" + rest;
      RowTextGoesOn(values, rest);
      CellReadsBack(values[0], "," + tail);
      RowReadsBack(values[1..], rest);
      RecordGoesOn(s, NeutralizeFormula(values[0]), tail, NeutralizeRow(values[1..]), rest);
    }
  }

  lemma {:induction false} FilledRowsReadBack(rows: seq<seq<string>>)
    requires forall i :: 0 <= i < |rows| ==> rows[i] != []
    ensures ReadDocument(DocumentText(rows)) == Some(NeutralizeRows(rows))
  {
    if rows != [] {
      var rest := DocumentText(rows[1..]);
      RowReadsBack(rows[0], rest);
      FilledRowsReadBack(rows[1..]);
      assert NeutralizeRows(rows) == [NeutralizeRow(rows[0])] + NeutralizeRows(rows[1..]);
    }
  }

  /** A row without cells prints like a row with one empty cell. */
  function Padded(row: seq<string>): seq<string>
  {
    if row == [] then [""] else row
  }

  function PadRows(rows: seq<seq<string>>): (padded: seq<seq<string>>)
    ensures forall i :: 0 <= i < |padded| ==> padded[i] != []
  {
    seq(|rows|, i requires 0 <= i < |rows| => Padded(rows[i]))
  }

  lemma PaddedRowPrintsAlike(row: seq<string>)
    ensures RowText(Padded(row)) == RowText(row)
  {
    if row == [] {
      assert EscapeCells([""]) == [""];
    }
  }

  lemma {:induction false} PaddingPrintsAlike(rows: seq<seq<string>>)
    ensures DocumentText(PadRows(rows)) == DocumentText(rows)
  {
    if rows != [] {
      PaddedRowPrintsAlike(rows[0]);
      PaddingPrintsAlike(rows[1..]);
      assert PadRows(rows)[1..] == PadRows(rows[1..]);
    }
  }

  /**
   The reader inverts the printer on whole documents, up to neutralised formulas, exactly
   when no row is empty; `ExportSubmissions` always prints at least four cells.
   */
  lemma DocumentReadsBack(rows: seq<seq<string>>)
    ensures ReadDocument(DocumentText(rows)) == Some(NeutralizeRows(PadRows(rows)))
    ensures ReadDocument(DocumentText(rows)) == Some(NeutralizeRows(rows)) <==> [] !in rows
  {
    PaddingPrintsAlike(rows);
    FilledRowsReadBack(PadRows(rows));
    if [] in rows {
      var i :| 0 <= i < |rows| && rows[i] == [];
      assert |NeutralizeRows(rows)[i]| == 0 && |NeutralizeRows(PadRows(rows))[i]| == 1;
    } else {
      assert PadRows(rows) == rows;
    }
  }

  lemma NeutralizedCellPrintsAlike(value: string)
    ensures EscapeCell(NeutralizeFormula(value)) == EscapeCell(value)
  {
    NeutralizedIsInert(value);
  }

  lemma {:induction false} NeutralizedPrintsAlike(rows: seq<seq<string>>)
    ensures DocumentText(NeutralizeRows(rows)) == DocumentText(rows)
  {
    if rows != [] {
      forall i | 0 <= i < |rows[0]| ensures EscapeCells(NeutralizeRow(rows[0]))[i] == EscapeCells(rows[0])[i] {
        NeutralizedCellPrintsAlike(rows[0][i]);
      }
      assert EscapeCells(NeutralizeRow(rows[0])) == EscapeCells(rows[0]);
      NeutralizedPrintsAlike(rows[1..]);
      assert NeutralizeRows(rows)[1..] == NeutralizeRows(rows[1..]);
    }
  }

  /** Two tables export to the same text exactly when their cells agree after neutralising. */
  lemma DocumentIsUnambiguous(a: seq<seq<string>>, b: seq<seq<string>>)
    ensures DocumentText(a) == DocumentText(b) <==> NeutralizeRows(PadRows(a)) == NeutralizeRows(PadRows(b))
  {
    DocumentReadsBack(a);
    DocumentReadsBack(b);
    PaddingPrintsAlike(a);
    PaddingPrintsAlike(b);
    NeutralizedPrintsAlike(PadRows(a));
    NeutralizedPrintsAlike(PadRows(b));
  }

  // ---------- The export ----------

  /** A form field; `title` is its label. */
  datatype Field = Field(name: string, title: string)

  /**
   A stored submission. `data` is the decoded JSON object with each value already rendered
   by the `%v` verb, or `None` when it does not decode.
   */
  datatype Submission = Submission(id: int, createdAt: string, ipAddress: string, isRead: bool,
                                   data: Option<map<string, string>>)

  function HeaderRow(fields: seq<Field>): seq<string>
  {
    ["ID", "Submitted At", "IP Address", "Read"] + seq(|fields|, i requires 0 <= i < |fields| => fields[i].title)
  }

  function CellOf(sub: Submission, field: Field): string
  {
    if sub.data.Some? && field.name in sub.data.value then sub.data.value[field.name] else ""
  }

  function DataRow(fields: seq<Field>, sub: Submission): seq<string>
  {
    [Text.FormatInt(sub.id), sub.createdAt, sub.ipAddress, if sub.isRead then "true" else "false"]
    + seq(|fields|, i requires 0 <= i < |fields| => CellOf(sub, fields[i]))
  }

  function Table(fields: seq<Field>, subs: seq<Submission>): seq<seq<string>>
  {
    [HeaderRow(fields)] + seq(|subs|, i requires 0 <= i < |subs| => DataRow(fields, subs[i]))
  }

  method EscapeCSVRow(values: seq<string>) returns (text: string)
    ensures text == RowText(values)
  {
    var escaped := new string[|values|](_ => "");
    for i := 0 to |values|
      invariant forall k :: 0 <= k < i ==> escaped[k] == EscapeCell(values[k])
    {
      var v := NeutralizeFormula(values[i]);
      v := DoubleQuotes(v);
      if NeedsQuoting(v) {
        v := "\"" + v + "\"";
      }
      escaped[i] := v;
    }
    assert escaped[..] == EscapeCells(values);
    return JoinCells(escaped[..]);
  }

  lemma {:induction false} DocumentAppends(rows: seq<seq<string>>, row: seq<string>)
    ensures DocumentText(rows + [row]) == DocumentText(rows) + (RowText(row) + "\n")
  {
    var all := rows + [row];
    if rows == [] {
      assert all == [row] && all[1..] == [];
      assert DocumentText(all) == RowText(row) + "\n" + DocumentText([]);
    } else {
      DocumentAppends(rows[1..], row);
      assert all[0] == rows[0] && all[1..] == rows[1..] + [row];
      var head, tail := RowText(rows[0]) + "\n", DocumentText(rows[1..]);
      assert DocumentText(all) == head + (tail + (RowText(row) + "\n"));
      assert DocumentText(rows) == head + tail;
    }
  }

  lemma TableAppends(fields: seq<Field>, submissions: seq<Submission>, n: nat)
    requires n < |submissions|
    ensures DocumentText(Table(fields, submissions[..n + 1]))
         == DocumentText(Table(fields, submissions[..n])) + (RowText(DataRow(fields, submissions[n])) + "\n")
  {
    var row := DataRow(fields, submissions[n]);
    assert Table(fields, submissions[..n + 1]) == Table(fields, submissions[..n]) + [row];
    DocumentAppends(Table(fields, submissions[..n]), row);
  }

  method BuildHeader(fields: seq<Field>) returns (headers: seq<string>)
    ensures headers == HeaderRow(fields)
  {
    headers := ["ID", "Submitted At", "IP Address", "Read"];
    for i := 0 to |fields|
      invariant headers == HeaderRow(fields[..i])
    {
      headers := headers + [fields[i].title];
    }
    assert fields[..|fields|] == fields;
  }

  method BuildRow(fields: seq<Field>, sub: Submission) returns (row: seq<string>)
    ensures row == DataRow(fields, sub)
  {
    var data := if sub.data.Some? then sub.data.value else map[];
    row := [Text.FormatInt(sub.id), sub.createdAt, sub.ipAddress, if sub.isRead then "true" else "false"];
    for i := 0 to |fields|
      invariant row == DataRow(fields[..i], sub)
    {
      var val := "";
      if fields[i].name in data {
        val := data[fields[i].name];
      }
      row := row + [val];
    }
    assert fields[..|fields|] == fields;
  }

  /** The first record: the fixed titles, then the label of each field. */
  ghost predicate IsHeaderRecord(record: seq<string>, fields: seq<Field>)
  {
    && |record| == 4 + |fields| && record[..4] == ["ID", "Submitted At", "IP Address", "Read"]
    && forall j :: 0 <= j < |fields| ==> record[4 + j] == NeutralizeFormula(fields[j].title)
  }

  /** A submission's record: its own columns, then its answer to each field, or an empty cell. */
  ghost predicate IsSubmissionRecord(record: seq<string>, fields: seq<Field>, sub: Submission)
  {
    && |record| == 4 + |fields|
    && record[0] == NeutralizeFormula(Text.FormatInt(sub.id))
    && record[1] == NeutralizeFormula(sub.createdAt)
    && record[2] == NeutralizeFormula(sub.ipAddress)
    && record[3] == (if sub.isRead then "true" else "false")
    && forall j :: 0 <= j < |fields| ==>
         record[4 + j] == (if sub.data.Some? && fields[j].name in sub.data.value
                           then NeutralizeFormula(sub.data.value[fields[j].name]) else "")
  }

  lemma HeaderReads(fields: seq<Field>)
    ensures IsHeaderRecord(NeutralizeRow(HeaderRow(fields)), fields)
  {
    var record, header := NeutralizeRow(HeaderRow(fields)), HeaderRow(fields);
    assert header[0] == "ID" && header[1] == "Submitted At" && header[2] == "IP Address" && header[3] == "Read";
    assert forall j :: 0 <= j < |fields| ==> header[4 + j] == fields[j].title;
    assert record[..4] == ["ID", "Submitted At", "IP Address", "Read"];
  }

  lemma SubmissionReads(fields: seq<Field>, sub: Submission)
    ensures IsSubmissionRecord(NeutralizeRow(DataRow(fields, sub)), fields, sub)
  {
    var record, row := NeutralizeRow(DataRow(fields, sub)), DataRow(fields, sub);
    assert row[0] == Text.FormatInt(sub.id) && row[1] == sub.createdAt && row[2] == sub.ipAddress;
    assert forall j :: 0 <= j < |fields| ==> row[4 + j] == CellOf(sub, fields[j]);
    assert record[3] == row[3];
  }

  /** Reading the table gives the header, then one record per submission, in order. */
  ghost predicate IsExport(records: seq<seq<string>>, fields: seq<Field>, submissions: seq<Submission>)
  {
    && |records| == |submissions| + 1 && IsHeaderRecord(records[0], fields)
    && forall i :: 0 <= i < |submissions| ==> IsSubmissionRecord(records[i + 1], fields, submissions[i])
  }

  lemma TableReads(fields: seq<Field>, submissions: seq<Submission>)
    ensures IsExport(NeutralizeRows(Table(fields, submissions)), fields, submissions)
  {
    var table, records := Table(fields, submissions), NeutralizeRows(Table(fields, submissions));
    assert table[0] == HeaderRow(fields);
    HeaderReads(fields);
    forall i | 0 <= i < |submissions| ensures IsSubmissionRecord(records[i + 1], fields, submissions[i]) {
      assert table[i + 1] == DataRow(fields, submissions[i]);
      SubmissionReads(fields, submissions[i]);
    }
  }

  /** The body of the response. A reader gets the labels, and each submission's answers in their columns. */
  method ExportSubmissions(fields: seq<Field>, submissions: seq<Submission>) returns (csv: string)
    ensures ReadDocument(csv).Some? && IsExport(ReadDocument(csv).value, fields, submissions)
    ensures csv == DocumentText(Table(fields, submissions))
  {
    var row := BuildHeader(fields);
    var line := EscapeCSVRow(row);
    csv := line + "\n";
    assert Table(fields, submissions[..0]) == [] + [row];
    DocumentAppends([], row);
    for n := 0 to |submissions|
      invariant csv == DocumentText(Table(fields, submissions[..n]))
    {
      row := BuildRow(fields, submissions[n]);
      line := EscapeCSVRow(row);
      csv := csv + (line + "\n");
      TableAppends(fields, submissions, n);
    }
    assert submissions[..|submissions|] == submissions;
    DocumentReadsBack(Table(fields, submissions));
    TableReads(fields, submissions);
  }
}
