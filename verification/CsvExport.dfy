/** The log page's CSV export, against a reader for the format of section 2 of RFC 4180
    (a bare LF is accepted as line break, as is a missing final one). */
module CsvExport {
  import opened Text
  import opened Wrappers

  /** Characters that may not stand in an unquoted field. */
  const SPECIAL: set<char> := {',', '"', '\r', '\n'}

  predicate Clean(s: string) { Free(s, SPECIAL) }

  /** What toISOString prints: digits and `-`, `:`, `.`, `T`, `Z`, `+`. */
  type IsoTime = s: string | forall i :: 0 <= i < |s| ==> '0' <= s[i] <= '9' || s[i] in {'-', ':', '.', 'T', 'Z', '+'}

  datatype LogRow = LogRow(timestamp: IsoTime, host: string, level: string, sourcePath: string, message: string)

  const HEADER: seq<string> := ["Timestamp", "Host", "Level", "Component", "Message"]

  // ---------------------------------------------------------------------------
  // The printer
  // ---------------------------------------------------------------------------

  /** Every quote doubled. */
  function Escape(s: string): string {
    if s == "" then "" else (if s[0] == '"' then "\"\"" else [s[0]]) + Escape(s[1..])
  }

  function Quote(s: string): string {
    "\"" + Escape(s) + "\""
  }

  function Line(row: LogRow): string {
    row.timestamp + "," + (row.host + "," + (row.level + "," + (row.sourcePath + "," + Quote(row.message))))
  }

  function Lines(rows: seq<LogRow>): seq<string> {
    if rows == [] then [] else [Line(rows[0])] + Lines(rows[1..])
  }

  /** Nothing is exported when there are no rows. */
  function Export(rows: seq<LogRow>): Option<string> {
    if rows == [] then None else Some(Join([Join(HEADER, ",")] + Lines(rows), "\n"))
  }

  // ---------------------------------------------------------------------------
  // The reader
  // ---------------------------------------------------------------------------

  /** The end of the text, a comma, LF or CRLF. */
  predicate FieldEnds(s: string) {
    s == "" || s[0] == ',' || BreakLength(s) > 0
  }

  function BreakLength(s: string): (n: nat)
    ensures n <= |s|
  {
    if "\r\n" <= s then 2 else if "\n" <= s then 1 else 0
  }

  /** The inside of a quoted field up to its closing quote, and what follows it. */
  function ReadQuoted(s: string): (r: Option<(string, string)>)
    ensures r.Some? ==> |r.value.1| < |s|
  {
    if s == "" then None
    else if s[0] != '"' then
      match ReadQuoted(s[1..])
      case None => None
      case Some((v, rest)) => Some(([s[0]] + v, rest))
    else if |s| >= 2 && s[1] == '"' then
      match ReadQuoted(s[2..])
      case None => None
      case Some((v, rest)) => Some((['"'] + v, rest))
    else Some(("", s[1..]))
  }

  /** The longest run of plain characters, and what follows it. */
  function ReadPlain(s: string): (r: (string, string))
    ensures |r.1| <= |s|
  {
    if s == "" || s[0] in SPECIAL then ("", s)
    else var (v, rest) := ReadPlain(s[1..]); ([s[0]] + v, rest)
  }

  function ReadField(s: string): (r: Option<(string, string)>)
    ensures r.Some? ==> |r.value.1| <= |s| && FieldEnds(r.value.1)
  {
    if s != "" && s[0] == '"' then
      match ReadQuoted(s[1..])
      case Some((v, rest)) => if FieldEnds(rest) then Some((v, rest)) else None
      case None => None
    else
      var (v, rest) := ReadPlain(s);
      if FieldEnds(rest) then Some((v, rest)) else None
  }

  /** The fields up to the end of the line, and the text from its line break on. */
  function ReadRecord(s: string): (r: Option<(seq<string>, string)>)
    ensures r.Some? ==> |r.value.1| <= |s| && (r.value.1 == "" || BreakLength(r.value.1) > 0)
    decreases |s|
  {
    match ReadField(s)
    case None => None
    case Some((v, rest)) =>
      if rest != "" && rest[0] == ',' then
        match ReadRecord(rest[1..])
        case None => None
        case Some((vs, tail)) => Some(([v] + vs, tail))
      else Some(([v], rest))
  }

  function ReadAll(s: string): Option<seq<seq<string>>>
    decreases |s|
  {
    match ReadRecord(s)
    case None => None
    case Some((record, rest)) =>
      var next := rest[BreakLength(rest)..];
      if next == "" then Some([record])
      else
        match ReadAll(next)
        case None => None
        case Some(records) => Some([record] + records)
  }

  // ---------------------------------------------------------------------------
  // Fields
  // ---------------------------------------------------------------------------

  lemma {:induction false} QuotedReadBack(v: string, rest: string)
    requires rest == "" || rest[0] != '"'
    ensures ReadQuoted(Escape(v) + "\"" + rest) == Some((v, rest))
  {
    var text := Escape(v) + "\"" + rest;
    if v == "" {
      assert text == "\"" + rest && text[1..] == rest;
    } else {
      QuotedReadBack(v[1..], rest);
      assert [v[0]] + v[1..] == v;
      var inner := Escape(v[1..]) + "\"" + rest;
      if v[0] == '"' {
        assert text == "\"\"" + inner && text[2..] == inner;
      } else {
        assert text == [v[0]] + inner && text[1..] == inner;
      }
    }
  }

  /** The reader only reports a quoted value that the text spells out. */
  lemma {:induction false} QuotedSound(s: string)
    requires ReadQuoted(s).Some?
    ensures var (v, rest) := ReadQuoted(s).value; s == Escape(v) + "\"" + rest
  {
    if s[0] != '"' {
      QuotedSound(s[1..]);
      assert s == [s[0]] + s[1..];
    } else if |s| >= 2 && s[1] == '"' {
      QuotedSound(s[2..]);
      assert s == "\"\"" + s[2..];
    }
  }

  lemma {:induction false} PlainReadBack(v: string, rest: string)
    requires Clean(v) && (rest == "" || rest[0] in SPECIAL)
    ensures ReadPlain(v + rest) == (v, rest)
  {
    if v == "" {
      assert v + rest == rest;
    } else {
      PlainReadBack(v[1..], rest);
      assert (v + rest)[1..] == v[1..] + rest;
      assert [v[0]] + v[1..] == v;
    }
  }

  lemma {:induction false} PlainIsClean(s: string)
    ensures Clean(ReadPlain(s).0)
  {
    if s != "" && s[0] !in SPECIAL {
      PlainIsClean(s[1..]);
    }
  }

  function LeadingQuotes(s: string): (n: nat)
    ensures n <= |s|
  {
    if s == "" || s[0] != '"' then 0 else 1 + LeadingQuotes(s[1..])
  }

  lemma {:induction false} LeadingOfEscape(f: string, tail: string)
    ensures LeadingQuotes(Escape(f) + "\"" + tail) >= 2 * LeadingQuotes(f)
  {
    if f != "" && f[0] == '"' {
      LeadingOfEscape(f[1..], tail);
      var inner := Escape(f[1..]) + "\"" + tail;
      var text := Escape(f) + "\"" + tail;
      assert text == "\"\"" + inner;
      assert text[1..][1..] == inner;
    }
  }

  lemma {:induction false} LeadingBeforeComma(f: string, tail: string)
    ensures LeadingQuotes(f + "," + tail) == LeadingQuotes(f)
  {
    if f != "" && f[0] == '"' {
      LeadingBeforeComma(f[1..], tail);
      assert (f + "," + tail)[1..] == f[1..] + "," + tail;
    } else if f == "" {
      assert f + "," + tail == "," + tail;
    }
  }

  /** An unquoted field in front of a comma is read back as itself exactly when it is clean. */
  lemma UnquotedField(f: string, tail: string)
    ensures Clean(f) ==> ReadField(f + "," + tail) == Some((f, "," + tail))
    ensures ReadField(f + "," + tail).Some? && ReadField(f + "," + tail).value.0 == f ==> Clean(f)
  {
    var text := f + "," + tail;
    assert text == f + ("," + tail);
    if Clean(f) {
      PlainReadBack(f, "," + tail);
      assert text[0] != '"';
    }
    if ReadField(text).Some? && ReadField(text).value.0 == f {
      if text[0] == '"' {
        StartsQuoted(f, tail);
      } else {
        PlainIsClean(text);
      }
    }
  }

  /** A field that starts with a quote is never read back as itself: the reader takes one
      leading quote off and halves the rest. */
  lemma StartsQuoted(f: string, tail: string)
    requires (f + "," + tail)[0] == '"'
    ensures ReadField(f + "," + tail).Some? ==> ReadField(f + "," + tail).value.0 != f
  {
    var text := f + "," + tail;
    assert f != "" && f[0] == '"';
    if ReadField(text).Some? {
      QuotedSound(text[1..]);
      var (v, rest) := ReadQuoted(text[1..]).value;
      LeadingBeforeComma(f, tail);
      LeadingOfEscape(v, rest);
      assert LeadingQuotes(text) == 1 + LeadingQuotes(text[1..]);
      assert LeadingQuotes(f) >= 1 && LeadingQuotes(f) - 1 >= 2 * LeadingQuotes(v);
    }
  }

  // ---------------------------------------------------------------------------
  // Records
  // ---------------------------------------------------------------------------

  function RowFields(row: LogRow): seq<string> {
    [row.timestamp, row.host, row.level, row.sourcePath, row.message]
  }

  predicate CleanRow(row: LogRow) {
    Clean(row.host) && Clean(row.level) && Clean(row.sourcePath)
  }

  predicate LineTail(tail: string) {
    tail == "" || tail[0] == '\n'
  }

  lemma MessageField(m: string, tail: string)
    requires LineTail(tail)
    ensures Reads(Quote(m) + tail, [m], tail) && ReadsAs(Quote(m) + tail, [m])
  {
    QuotedReadBack(m, tail);
    var text := Quote(m) + tail;
    assert text[1..] == Escape(m) + "\"" + tail;
  }

  /** The record read from the text, when there is one, is `fields` and stops at `tail`. */
  predicate Reads(text: string, fields: seq<string>, tail: string) {
    match ReadRecord(text)
    case None => false
    case Some((record, rest)) => record == fields && rest == tail
  }

  predicate ReadsAs(text: string, fields: seq<string>) {
    ReadRecord(text).Some? && ReadRecord(text).value.0 == fields
  }

  /** Peeling one unquoted field off the front of a record: it is read back only if it is
      clean and the rest of the record is read back too. */
  lemma RecordStep(f: string, more: string, fs: seq<string>, tail: string)
    ensures ReadsAs(f + "," + more, [f] + fs) <==> Clean(f) && ReadsAs(more, fs)
    ensures Clean(f) && Reads(more, fs, tail) ==> Reads(f + "," + more, [f] + fs, tail)
  {
    hide ReadField, Clean;
    var text := f + "," + more;
    UnquotedField(f, more);
    assert ("," + more)[1..] == more && ("," + more)[0] == ',';
    if Clean(f) {
      if ReadRecord(more).Some? {
        var (vs, t) := ReadRecord(more).value;
        assert ReadRecord(text) == Some(([f] + vs, t));
        assert ([f] + vs)[1..] == vs && ([f] + fs)[1..] == fs;
      }
    } else if ReadRecord(text).Some? {
      assert ReadRecord(text).value.0[0] == ReadField(text).value.0;
      assert ([f] + fs)[0] == f;
    }
  }

  lemma IsoClean(t: IsoTime)
    ensures Clean(t)
  {
  }

  /** A printed row is read back as its five fields exactly when the row is clean, and
      then the reader stops at the end of its line. */
  lemma RowReadBack(row: LogRow, tail: string)
    requires LineTail(tail)
    ensures ReadsAs(Line(row) + tail, RowFields(row)) <==> CleanRow(row)
    ensures CleanRow(row) ==> Reads(Line(row) + tail, RowFields(row), tail)
  {
    hide ReadRecord, Clean, Quote, Reads, ReadsAs;
    IsoClean(row.timestamp);
    var t4 := Quote(row.message) + tail;
    var t3 := row.sourcePath + "," + t4;
    var t2 := row.level + "," + t3;
    var t1 := row.host + "," + t2;
    assert Line(row) + tail == row.timestamp + "," + t1;
    MessageField(row.message, tail);
    var f4 := [row.message];
    var f3 := [row.sourcePath] + f4;
    var f2 := [row.level] + f3;
    var f1 := [row.host] + f2;
    RecordStep(row.sourcePath, t4, f4, tail);
    RecordStep(row.level, t3, f3, tail);
    RecordStep(row.host, t2, f2, tail);
    RecordStep(row.timestamp, t1, f1, tail);
    assert RowFields(row) == [row.timestamp] + f1;
  }

  lemma HeaderReadBack(tail: string)
    requires LineTail(tail)
    ensures Reads(Join(HEADER, ",") + tail, HEADER, tail)
  {
    hide ReadRecord, Reads, ReadsAs, Join;
    var h := HEADER;
    HeaderClean();
    JoinCons(h[3], [h[4]], ",");
    JoinCons(h[2], [h[3], h[4]], ",");
    JoinCons(h[1], [h[2], h[3], h[4]], ",");
    JoinCons(h[0], [h[1], h[2], h[3], h[4]], ",");
    JoinOne(h[4], ",");
    assert [h[3]] + [h[4]] == [h[3], h[4]] && [h[2]] + [h[3], h[4]] == [h[2], h[3], h[4]];
    assert [h[1]] + [h[2], h[3], h[4]] == [h[1], h[2], h[3], h[4]] && [h[0]] + [h[1], h[2], h[3], h[4]] == h;
    var t4 := h[4] + tail;
    var t3 := h[3] + "," + t4;
    var t2 := h[2] + "," + t3;
    var t1 := h[1] + "," + t2;
    assert Join([h[3], h[4]], ",") + tail == t3;
    assert Join([h[2], h[3], h[4]], ",") + tail == t2;
    assert Join([h[1], h[2], h[3], h[4]], ",") + tail == t1;
    assert Join(h, ",") + tail == h[0] + "," + t1;
    LastPlainField(h[4], tail);
    RecordStep(h[3], t4, [h[4]], tail);
    RecordStep(h[2], t3, [h[3]] + [h[4]], tail);
    RecordStep(h[1], t2, [h[2]] + [h[3], h[4]], tail);
    RecordStep(h[0], t1, [h[1]] + [h[2], h[3], h[4]], tail);
  }

  lemma HeaderClean()
    ensures forall i :: 0 <= i < |HEADER| ==> Clean(HEADER[i])
  {
  }

  lemma JoinOne(s: string, delimiter: string)
    ensures Join([s], delimiter) == s
  {
  }

  lemma EmptyTail()
    ensures LineTail("")
  {
  }

  lemma NextTail(more: string)
    ensures LineTail("\n" + more)
  {
  }

  lemma LastPlainField(f: string, tail: string)
    requires Clean(f) && LineTail(tail)
    ensures Reads(f + tail, [f], tail)
  {
    PlainReadBack(f, tail);
    assert f + tail != "" ==> (f + tail)[0] == if f == "" then tail[0] else f[0];
  }

  // ---------------------------------------------------------------------------
  // The whole file
  // ---------------------------------------------------------------------------

  function AllFields(rows: seq<LogRow>): seq<seq<string>> {
    if rows == [] then [] else [RowFields(rows[0])] + AllFields(rows[1..])
  }

  predicate CleanRows(rows: seq<LogRow>) {
    forall i :: 0 <= i < |rows| ==> CleanRow(rows[i])
  }

  lemma {:induction false} LinesReadBack(rows: seq<LogRow>)
    requires rows != []
    ensures Join(Lines(rows), "\n") != ""
    ensures ReadAll(Join(Lines(rows), "\n")) == Some(AllFields(rows)) <==> CleanRows(rows)
  {
    hide Reads, ReadsAs, CleanRow, Line, RowFields, Join, ReadAll, LineTail;
    var row, rest := rows[0], rows[1..];
    assert Line(row) != "" by { LineNotEmpty(row); }
    assert CleanRows(rows) <==> CleanRow(row) && CleanRows(rest);
    if rest == [] {
      assert Lines(rows) == [Line(row)] && Line(row) + "" == Line(row);
      JoinOne(Line(row), "\n");
      EmptyTail();
      RowReadBack(row, "");
      WholeRecord(Line(row), "", RowFields(row), [], CleanRow(row), true);
      assert AllFields(rows) == [RowFields(row)] + [];
    } else {
      var more := Join(Lines(rest), "\n");
      LinesReadBack(rest);
      assert Lines(rows) == [Line(row)] + Lines(rest) && Lines(rest) != [];
      JoinCons(Line(row), Lines(rest), "\n");
      assert Line(row) + "\n" + more == Line(row) + ("\n" + more);
      NextTail(more);
      assert ("\n" + more)[1..] == more;
      RowReadBack(row, "\n" + more);
      WholeRecord(Line(row), "\n" + more, RowFields(row), AllFields(rest), CleanRow(row), CleanRows(rest));
      assert AllFields(rows) == [RowFields(row)] + AllFields(rest);
    }
  }

  lemma LineNotEmpty(row: LogRow)
    ensures Line(row) != ""
  {
  }

  /** One line and what follows it: the whole text is read back exactly when both are. */
  lemma WholeRecord(line: string, tail: string, fields: seq<string>, records: seq<seq<string>>, clean: bool, cleanRest: bool)
    requires LineTail(tail) && line != ""
    requires ReadsAs(line + tail, fields) <==> clean
    requires clean ==> Reads(line + tail, fields, tail)
    requires tail == "" ==> records == [] && cleanRest
    requires tail != "" ==> |tail| > 1 && (ReadAll(tail[1..]) == Some(records) <==> cleanRest)
    ensures ReadAll(line + tail) == Some([fields] + records) <==> clean && cleanRest
  {
    var text := line + tail;
    assert ([fields] + records)[0] == fields && ([fields] + records)[1..] == records;
    if clean {
      assert BreakLength(tail) == if tail == "" then 0 else 1;
      if tail == "" {
        assert ReadAll(text) == Some([fields]) && [fields] + records == [fields];
      } else if ReadAll(tail[1..]).Some? {
        var rs := ReadAll(tail[1..]).value;
        assert ([fields] + rs)[1..] == rs;
      }
    } else if ReadAll(text).Some? {
      assert ReadAll(text).value[0] == ReadRecord(text).value.0;
    }
  }

  /** ROUND TRIP. For arbitrary messages the reader returns the header and every row
      exactly when no host, level or source path holds a comma, a quote, CR or LF. */
  lemma CsvRoundTrip(rows: seq<LogRow>)
    requires rows != []
    ensures Export(rows).Some?
    ensures ReadAll(Export(rows).value) == Some([HEADER] + AllFields(rows)) <==> CleanRows(rows)
  {
    hide Reads, ReadsAs, ReadRecord, CleanRows, Line;
    var body := Join(Lines(rows), "\n");
    var head := Join(HEADER, ",");
    LinesReadBack(rows);
    HeaderReadBack("\n" + body);
    var all := [head] + Lines(rows);
    assert all[1..] == Lines(rows);
    assert Export(rows).value == head + ("\n" + body);
    HeaderText();
    ReadsGivesReadsAs(head + ("\n" + body), HEADER, "\n" + body);
    assert ("\n" + body)[1..] == body;
    WholeRecord(head, "\n" + body, HEADER, AllFields(rows), true, CleanRows(rows));
  }

  lemma HeaderText()
    ensures Join(HEADER, ",") != ""
  {
    JoinCons(HEADER[0], HEADER[1..], ",");
    assert [HEADER[0]] + HEADER[1..] == HEADER;
  }

  lemma ReadsGivesReadsAs(text: string, fields: seq<string>, tail: string)
    requires Reads(text, fields, tail)
    ensures ReadsAs(text, fields)
  {
  }

  /** The columns of a row, in the order of the header. */
  predicate Columns(row: LogRow, record: seq<string>) {
    |record| == 5 && record[0] == row.timestamp && record[1] == row.host && record[2] == row.level
    && record[3] == row.sourcePath && record[4] == row.message
  }

  /** No comma, quote, CR or LF stands in the text. */
  predicate Unbroken(s: string) {
    ',' !in s && '"' !in s && '\r' !in s && '\n' !in s
  }

  lemma CleanMeans(s: string)
    ensures Clean(s) <==> Unbroken(s)
  {
  }

  /** WHAT IS READ BACK, column by column: a header naming the five columns and one record per
      row with the row's values under them, exactly when no host, level or source path holds a
      comma, a quote, CR or LF. */
  lemma CsvColumns(rows: seq<LogRow>)
    requires rows != []
    ensures Export(rows).Some?
    ensures (var read := ReadAll(Export(rows).value);
             && read.Some? && |read.value| == |rows| + 1
             && read.value[0] == ["Timestamp", "Host", "Level", "Component", "Message"]
             && forall i :: 0 <= i < |rows| ==> Columns(rows[i], read.value[i + 1]))
            <==> forall i :: 0 <= i < |rows| ==>
                   Unbroken(rows[i].host) && Unbroken(rows[i].level) && Unbroken(rows[i].sourcePath)
  {
    hide Export, ReadAll, Unbroken, Columns, Clean;
    CsvRoundTrip(rows);
    var read, all := ReadAll(Export(rows).value), AllFields(rows);
    AllColumns(rows);
    forall i | 0 <= i < |rows| ensures CleanRow(rows[i]) <==> Unbroken(rows[i].host) && Unbroken(rows[i].level) && Unbroken(rows[i].sourcePath) {
      CleanMeans(rows[i].host);
      CleanMeans(rows[i].level);
      CleanMeans(rows[i].sourcePath);
    }
    if read.Some? && |read.value| == |rows| + 1 && read.value[0] == HEADER
       && forall i :: 0 <= i < |rows| ==> Columns(rows[i], read.value[i + 1]) {
      forall i | 0 <= i < |rows| ensures read.value[i + 1] == all[i] {
        OneRecord(rows[i], read.value[i + 1], all[i]);
      }
      assert read.value == [HEADER] + all;
    }
  }

  lemma OneRecord(row: LogRow, x: seq<string>, y: seq<string>)
    requires Columns(row, x) && Columns(row, y)
    ensures x == y
  {
  }

  lemma {:induction false} AllColumns(rows: seq<LogRow>)
    ensures |AllFields(rows)| == |rows| && forall i :: 0 <= i < |rows| ==> Columns(rows[i], AllFields(rows)[i])
  {
    if rows != [] { AllColumns(rows[1..]); }
  }

  /** Doubling quotes joins the pieces between them with two. */
  lemma {:induction false} EscapeMeans(s: string)
    ensures Escape(s) == Join(Split(s, {'"'}), "\"\"")
  {
    if s == "" {
      JoinOne("", "\"\"");
    } else {
      hide Join;
      var rest := Split(s[1..], {'"'});
      EscapeMeans(s[1..]);
      EscapeJoins(s[0], rest);
    }
  }

  lemma EscapeJoins(c: char, rest: seq<string>)
    requires rest != []
    ensures Join([[]] + rest, "\"\"") == "\"\"" + Join(rest, "\"\"")
    ensures Join([[c] + rest[0]] + rest[1..], "\"\"") == [c] + Join(rest, "\"\"")
  {
    hide Join;
    var two := "\"\"";
    JoinCons([], rest, two);
    assert [] + two + Join(rest, two) == two + Join(rest, two);
    if |rest| == 1 {
      assert rest == [rest[0]] && [[c] + rest[0]] + rest[1..] == [[c] + rest[0]];
      JoinOne(rest[0], two);
      JoinOne([c] + rest[0], two);
    } else {
      assert [rest[0]] + rest[1..] == rest;
      JoinCons(rest[0], rest[1..], two);
      JoinCons([c] + rest[0], rest[1..], two);
      assert [c] + rest[0] + two + Join(rest[1..], two) == [c] + (rest[0] + two + Join(rest[1..], two));
    }
  }

  /** The text of a file: the header line, then a line for every row, each behind a line feed. */
  function FileText(rows: seq<LogRow>): string {
    if rows == [] then "Timestamp,Host,Level,Component,Message"
    else
      var row := rows[|rows| - 1];
      FileText(rows[..|rows| - 1]) + "\n" + row.timestamp + "," + row.host + "," + row.level + "," + row.sourcePath
      + ",\"" + Join(Split(row.message, {'"'}), "\"\"") + "\""
  }

  lemma LineText(row: LogRow)
    ensures Line(row) == row.timestamp + "," + row.host + "," + row.level + "," + row.sourcePath
                         + ",\"" + Join(Split(row.message, {'"'}), "\"\"") + "\""
  {
    hide Join, Split;
    EscapeMeans(row.message);
  }

  lemma {:induction false} LinesSnoc(rows: seq<LogRow>, row: LogRow)
    ensures Lines(rows + [row]) == Lines(rows) + [Line(row)]
  {
    hide Line;
    if rows == [] {
      assert [] + [row] == [row] && [row][1..] == [];
    } else {
      LinesSnoc(rows[1..], row);
      assert (rows + [row])[1..] == rows[1..] + [row];
    }
  }

  lemma {:induction false} JoinSnoc(words: seq<string>, w: string, delimiter: string)
    requires words != []
    ensures Join(words + [w], delimiter) == Join(words, delimiter) + delimiter + w
  {
    if |words| == 1 {
      assert (words + [w])[1..] == [w];
    } else {
      JoinSnoc(words[1..], w, delimiter);
      assert (words + [w])[1..] == words[1..] + [w];
    }
  }

  /** WHAT IS WRITTEN, character by character. */
  lemma {:induction false} ExportText(rows: seq<LogRow>)
    ensures Join([Join(HEADER, ",")] + Lines(rows), "\n") == FileText(rows)
    ensures rows != [] ==> Export(rows) == Some(FileText(rows))
  {
    hide Join, Lines, Line;
    if rows == [] {
      HeaderLine();
      NoLines();
      assert [Join(HEADER, ",")] + [] == [Join(HEADER, ",")];
      JoinOne(Join(HEADER, ","), "\n");
    } else {
      var n := |rows| - 1;
      ExportText(rows[..n]);
      assert rows == rows[..n] + [rows[n]];
      LinesSnoc(rows[..n], rows[n]);
      JoinSnoc([Join(HEADER, ",")] + Lines(rows[..n]), Line(rows[n]), "\n");
      assert [Join(HEADER, ",")] + Lines(rows) == [Join(HEADER, ",")] + Lines(rows[..n]) + [Line(rows[n])];
      LineText(rows[n]);
      RowAfter(FileText(rows[..n]), rows[n]);
    }
  }

  lemma NoLines()
    ensures Lines([]) == []
  {
  }

  lemma HeaderLine()
    ensures Join(HEADER, ",") == "Timestamp,Host,Level,Component,Message"
  {
    hide Join;
    var three := ["Timestamp", "Host", "Level"];
    HeaderStart();
    JoinSnoc(three, "Component", ",");
    JoinSnoc(three + ["Component"], "Message", ",");
    assert three + ["Component"] + ["Message"] == HEADER;
  }

  lemma HeaderStart()
    ensures Join(["Timestamp", "Host", "Level"], ",") == "Timestamp,Host,Level"
  {
    hide Join;
    JoinOne("Timestamp", ",");
    JoinSnoc(["Timestamp"], "Host", ",");
    JoinSnoc(["Timestamp"] + ["Host"], "Level", ",");
    assert ["Timestamp"] + ["Host"] + ["Level"] == ["Timestamp", "Host", "Level"];
  }

  lemma RowAfter(front: string, row: LogRow)
    ensures var message := Join(Split(row.message, {'"'}), "\"\"");
            front + "\n" + (row.timestamp + "," + row.host + "," + row.level + "," + row.sourcePath + ",\"" + message + "\"") ==
            front + "\n" + row.timestamp + "," + row.host + "," + row.level + "," + row.sourcePath + ",\"" + message + "\""
  {
  }
}
