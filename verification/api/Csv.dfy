/** The Scope 3 CSV export, and that a reader following section 2 of RFC 4180 (with LF
    between records) gets back exactly what was exported. */
module Csv {
  import opened Common

  /** A report line. The numeric fields are of any type `N` that can be shown as text. */
  datatype LineItem<N> = LineItem(
    creditId: N, projectId: string, methodology: string, geography: string,
    vintageStart: string, vintageEnd: string, serialPrefix: string, tonnesRetired: N,
    beneficiary: string, reason: string, accountingPeriod: string, retirementDate: string,
    txHash: string, ledgerSequence: N, certificateHash: Option<string>)

  const BOM: char := '\U{FEFF}'
  const HEADERS: seq<string> := [
    "credit_id", "project_id", "methodology", "geography", "vintage_start", "vintage_end",
    "serial_prefix", "tonnes_retired", "beneficiary", "reason", "accounting_period",
    "retirement_date", "tx_hash", "ledger_sequence", "certificate_hash"]

  // ---------- Printing ----------

  predicate IsSpecial(c: char) {
    c == '"' || c == ',' || c == '\n' || c == '\r'
  }

  /** `/[",\n\r]/.test(value)` */
  predicate NeedsQuotes(s: string) {
    s != "" && (IsSpecial(s[0]) || NeedsQuotes(s[1..]))
  }

  /** `value.replace(/"/g, '""')` */
  function DoubleQuotes(s: string): string {
    if s == "" then ""
    else (if s[0] == '"' then ['"', '"'] else [s[0]]) + DoubleQuotes(s[1..])
  }

  function EscapeCsv(s: string): string {
    if NeedsQuotes(s) then ['"'] + DoubleQuotes(s) + ['"'] else s
  }

  function Join(parts: seq<string>, separator: char): string {
    if parts == [] then ""
    else if |parts| == 1 then parts[0]
    else parts[0] + [separator] + Join(parts[1..], separator)
  }

  function Fields<N>(item: LineItem<N>, show: N -> string): seq<string> {
    [show(item.creditId), item.projectId, item.methodology, item.geography,
     item.vintageStart, item.vintageEnd, item.serialPrefix, show(item.tonnesRetired),
     item.beneficiary, item.reason, item.accountingPeriod, item.retirementDate,
     item.txHash, show(item.ledgerSequence), if item.certificateHash.Some? then item.certificateHash.value else ""]
  }

  function EscapeAll(fields: seq<string>): seq<string> {
    seq(|fields|, i requires 0 <= i < |fields| => EscapeCsv(fields[i]))
  }

  /** BOM, header, one line per row, and a final line break if there is any row. */
  function Table(header: seq<string>, rows: seq<seq<string>>): string {
    var lines := [Join(header, ',')] + seq(|rows|, i requires 0 <= i < |rows| => Join(EscapeAll(rows[i]), ','));
    [BOM] + Join(if |lines| > 1 then lines + [""] else lines, '\n')
  }

  function ToScope3Csv<N>(items: seq<LineItem<N>>, show: N -> string): string {
    Table(HEADERS, seq(|items|, i requires 0 <= i < |items| => Fields(items[i], show)))
  }

  // ---------- Reading ----------

  datatype Parsed<T> = Parsed(value: T, rest: string) | Malformed {
    predicate IsFailure() { Malformed? }
    function PropagateFailure<U>(): Parsed<U> requires Malformed? { Malformed }
    function Extract(): (T, string) requires Parsed? { (value, rest) }
  }

  predicate AtBoundary(s: string) {
    s == "" || s[0] == ',' || s[0] == '\n'
  }

  /** Rule 5: an unquoted field runs to the next separator and may not contain a quote or a
      bare carriage return. */
  function ReadPlain(s: string): (r: Parsed<string>)
    ensures r.Parsed? ==> |r.rest| <= |s|
  {
    if AtBoundary(s) then Parsed("", s)
    else if s[0] == '"' || s[0] == '\r' then Malformed
    else
      var (value, rest) :- ReadPlain(s[1..]);
      Parsed([s[0]] + value, rest)
  }

  /** Rules 6 and 7: inside quotes anything goes, and a quote is written twice. `s` starts
      after the opening quote. */
  function ReadQuoted(s: string): (r: Parsed<string>)
    ensures r.Parsed? ==> |r.rest| < |s|
  {
    if s == "" then Malformed
    else if s[0] != '"' then
      var (value, rest) :- ReadQuoted(s[1..]);
      Parsed([s[0]] + value, rest)
    else if |s| > 1 && s[1] == '"' then
      var (value, rest) :- ReadQuoted(s[2..]);
      Parsed(['"'] + value, rest)
    else Parsed("", s[1..])
  }

  function ReadField(s: string): (r: Parsed<string>)
    ensures r.Parsed? ==> |r.rest| <= |s|
  {
    if s != "" && s[0] == '"' then
      var (value, rest) :- ReadQuoted(s[1..]);
      if AtBoundary(rest) then Parsed(value, rest) else Malformed
    else ReadPlain(s)
  }

  /** Rule 4: fields separated by commas, up to the line break or the end of the text. */
  function ReadRecord(s: string): (r: Parsed<seq<string>>)
    ensures r.Parsed? ==> |r.rest| <= |s|
    decreases |s|
  {
    var (field, rest) :- ReadField(s);
    if rest != "" && rest[0] == ',' then
      var (fields, rest') :- ReadRecord(rest[1..]);
      Parsed([field] + fields, rest')
    else Parsed([field], rest)
  }

  /** Rules 1 and 2: records separated by line breaks; the last one may lack its own. */
  function ReadRecords(s: string): Parsed<seq<seq<string>>>
    decreases |s|
  {
    var (record, rest) :- ReadRecord(s);
    if rest == "" || rest == "\n" then Parsed([record], "")
    else if rest[0] == '\n' then
      var (records, rest') :- ReadRecords(rest[1..]);
      Parsed([record] + records, rest')
    else Malformed
  }

  /** Drops the byte order mark, then reads the records. */
  function ReadFile(s: string): Parsed<seq<seq<string>>> {
    if s != "" && s[0] == BOM then ReadRecords(s[1..]) else ReadRecords(s)
  }

  // ---------- Round trip ----------

  lemma {:induction false} PlainRoundTrip(s: string, rest: string)
    requires !NeedsQuotes(s) && AtBoundary(rest)
    ensures ReadPlain(s + rest) == Parsed(s, rest)
  {
    if s == "" {
      assert s + rest == rest;
    } else {
      assert (s + rest)[1..] == s[1..] + rest;
      assert s == [s[0]] + s[1..];
      PlainRoundTrip(s[1..], rest);
    }
  }

  lemma {:induction false} QuotedRoundTrip(s: string, rest: string)
    requires AtBoundary(rest)
    ensures ReadQuoted(DoubleQuotes(s) + ['"'] + rest) == Parsed(s, rest)
  {
    var text := DoubleQuotes(s) + ['"'] + rest;
    if s == "" {
      assert text == ['"'] + rest;
      assert text[1..] == rest;
    } else {
      QuotedRoundTrip(s[1..], rest);
      var tail := DoubleQuotes(s[1..]) + ['"'] + rest;
      assert s == [s[0]] + s[1..];
      if s[0] == '"' {
        assert text == ['"', '"'] + tail;
        assert text[2..] == tail;
      } else {
        assert text == [s[0]] + tail;
        assert text[1..] == tail;
      }
    }
  }

  lemma QuotedField(body: string, value: string, rest: string)
    requires ReadQuoted(body) == Parsed(value, rest) && AtBoundary(rest)
    ensures ReadField(['"'] + body) == Parsed(value, rest)
  {
    assert (['"'] + body)[1..] == body;
  }

  lemma PlainField(s: string, rest: string)
    requires !NeedsQuotes(s) && AtBoundary(rest)
    ensures ReadField(s + rest) == Parsed(s, rest)
  {
    PlainRoundTrip(s, rest);
    assert s + rest == "" || (s + rest)[0] == (if s == "" then rest[0] else s[0]);
  }

  lemma FieldRoundTrip(s: string, rest: string)
    requires AtBoundary(rest)
    ensures ReadField(EscapeCsv(s) + rest) == Parsed(s, rest)
  {
    if NeedsQuotes(s) {
      var body := DoubleQuotes(s) + ['"'] + rest;
      QuotedRoundTrip(s, rest);
      QuotedField(body, s, rest);
      assert EscapeCsv(s) + rest == ['"'] + body;
    } else {
      PlainField(s, rest);
    }
  }

  predicate AtLineEnd(s: string) {
    s == "" || s[0] == '\n'
  }

  /** A record as it is printed, and what follows it. */
  function Printed(fields: seq<string>, rest: string): string {
    Join(EscapeAll(fields), ',') + rest
  }

  lemma {:induction false} RecordRoundTrip(fields: seq<string>, rest: string)
    requires fields != [] && AtLineEnd(rest)
    ensures ReadRecord(Printed(fields, rest)) == Parsed(fields, rest)
    decreases |fields|
  {
    if |fields| == 1 {
      FieldRoundTrip(fields[0], rest);
      assert fields == [fields[0]];
    } else {
      RecordRoundTrip(fields[1..], rest);
      PrintedCons(fields, rest);
      FieldThenRecord(fields[0], Printed(fields[1..], rest), fields[1..], rest);
      assert fields == [fields[0]] + fields[1..];
    }
  }

  lemma PrintedCons(fields: seq<string>, rest: string)
    requires |fields| > 1
    ensures Printed(fields, rest) == EscapeCsv(fields[0]) + ([','] + Printed(fields[1..], rest))
  {
    assert EscapeAll(fields)[1..] == EscapeAll(fields[1..]);
  }

  lemma FieldThenRecord(field: string, tail: string, fields: seq<string>, rest: string)
    requires ReadRecord(tail) == Parsed(fields, rest)
    ensures ReadRecord(EscapeCsv(field) + ([','] + tail)) == Parsed([field] + fields, rest)
  {
    FieldRoundTrip(field, [','] + tail);
    assert ([','] + tail)[1..] == tail;
  }

  // ---------- The form of the export ----------

  /** A field is printed as it is if and only if it holds no quote, comma or line break. */
  lemma PlainIff(s: string)
    ensures EscapeCsv(s) == s <==> forall i | 0 <= i < |s| :: s[i] != '"' && s[i] != ',' && s[i] != '\n' && s[i] != '\r'
    ensures EscapeCsv(s) != s ==>
              && |EscapeCsv(s)| >= |s| + 2
              && EscapeCsv(s)[0] == '"' && EscapeCsv(s)[|EscapeCsv(s)| - 1] == '"'
  {
    NeedsQuotesIff(s);
    DoublingGrows(s);
  }

  lemma {:induction false} NeedsQuotesIff(s: string)
    ensures NeedsQuotes(s) <==> exists i | 0 <= i < |s| :: s[i] == '"' || s[i] == ',' || s[i] == '\n' || s[i] == '\r'
  {
    if s != "" {
      NeedsQuotesIff(s[1..]);
      if i :| 0 < i < |s| && IsSpecial(s[i]) {
        assert s[1..][i - 1] == s[i];
      }
      if i :| 0 <= i < |s[1..]| && IsSpecial(s[1..][i]) {
        assert s[i + 1] == s[1..][i];
      }
    }
  }

  lemma {:induction false} DoublingGrows(s: string)
    ensures |DoubleQuotes(s)| >= |s|
  {
    if s != "" {
      DoublingGrows(s[1..]);
    }
  }

  /** The value under a column's name. */
  function Cell<N>(item: LineItem<N>, show: N -> string, name: string, i: nat): string
    requires i <= 15
    decreases 15 - i
  {
    if i == 15 then ""
    else if HEADERS[i] == name then Fields(item, show)[i]
    else Cell(item, show, name, i + 1)
  }

  /** Every column holds the field it is named after. */
  lemma ColumnsHoldTheirFields<N>(item: LineItem<N>, show: N -> string)
    ensures |Fields(item, show)| == 15 == |HEADERS|
    ensures Cell(item, show, "credit_id", 0) == show(item.creditId)
    ensures Cell(item, show, "project_id", 0) == item.projectId
    ensures Cell(item, show, "methodology", 0) == item.methodology
    ensures Cell(item, show, "geography", 0) == item.geography
    ensures Cell(item, show, "vintage_start", 0) == item.vintageStart
    ensures Cell(item, show, "vintage_end", 0) == item.vintageEnd
    ensures Cell(item, show, "serial_prefix", 0) == item.serialPrefix
    ensures Cell(item, show, "tonnes_retired", 0) == show(item.tonnesRetired)
    ensures Cell(item, show, "beneficiary", 0) == item.beneficiary
    ensures Cell(item, show, "reason", 0) == item.reason
    ensures Cell(item, show, "accounting_period", 0) == item.accountingPeriod
    ensures Cell(item, show, "retirement_date", 0) == item.retirementDate
    ensures Cell(item, show, "tx_hash", 0) == item.txHash
    ensures Cell(item, show, "ledger_sequence", 0) == show(item.ledgerSequence)
    ensures Cell(item, show, "certificate_hash", 0)
            == match item.certificateHash case Some(hash) => hash case None => ""
  {
    HeadersDiffer();
    forall i | 0 <= i < 15 ensures Cell(item, show, HEADERS[i], 0) == Fields(item, show)[i] {
      CellAt(item, show, i, 0);
    }
    assert HEADERS[0] == "credit_id" && HEADERS[1] == "project_id" && HEADERS[2] == "methodology";
    assert HEADERS[3] == "geography" && HEADERS[4] == "vintage_start" && HEADERS[5] == "vintage_end";
    assert HEADERS[6] == "serial_prefix" && HEADERS[7] == "tonnes_retired" && HEADERS[8] == "beneficiary";
    assert HEADERS[9] == "reason" && HEADERS[10] == "accounting_period" && HEADERS[11] == "retirement_date";
    assert HEADERS[12] == "tx_hash" && HEADERS[13] == "ledger_sequence" && HEADERS[14] == "certificate_hash";
  }

  lemma {:induction false} CellAt<N>(item: LineItem<N>, show: N -> string, i: nat, from: nat)
    requires from <= i < 15 && forall j, k | 0 <= j < k < 15 :: HEADERS[j] != HEADERS[k]
    ensures Cell(item, show, HEADERS[i], from) == Fields(item, show)[i]
    decreases i - from
  {
    if from < i {
      CellAt(item, show, i, from + 1);
    }
  }

  lemma HeadersDiffer()
    ensures forall j, k | 0 <= j < k < 15 :: HEADERS[j] != HEADERS[k]
  {
    var lengths := [9, 10, 11, 9, 13, 11, 13, 14, 11, 6, 17, 15, 7, 15, 16];
    assert forall i | 0 <= i < 15 :: |HEADERS[i]| == lengths[i];
    assert HEADERS[0][0] != HEADERS[3][0] && HEADERS[2][0] != HEADERS[5][0] && HEADERS[2][0] != HEADERS[8][0];
    assert HEADERS[5][0] != HEADERS[8][0] && HEADERS[4][0] != HEADERS[6][0] && HEADERS[11][0] != HEADERS[13][0];
  }

  /** The export starts with the byte order mark, and ends its last line if it has any rows. */
  lemma ExportFrame<N>(items: seq<LineItem<N>>, show: N -> string)
    ensures var text := ToScope3Csv(items, show);
            && |text| > 0 && text[0] == '\U{FEFF}'
            && (items != [] ==> text[|text| - 1] == '\n')
  {
    if items != [] {
      var rows := seq(|items|, i requires 0 <= i < |items| => Fields(items[i], show));
      var lines := [Join(HEADERS, ',')] + seq(|rows|, i requires 0 <= i < |rows| => Join(EscapeAll(rows[i]), ','));
      JoinEnds(lines);
    }
  }

  lemma {:induction false} JoinEnds(lines: seq<string>)
    requires lines != []
    ensures var text := Join(lines + [""], '\n'); |text| > 0 && text[|text| - 1] == '\n'
    decreases |lines|
  {
    if |lines| == 1 {
      assert (lines + [""])[1..] == [""];
    } else {
      assert (lines + [""])[1..] == lines[1..] + [""];
      JoinEnds(lines[1..]);
    }
  }

  /** The rows of the export, joined by line breaks and with a final one. */
  lemma {:induction false} RecordsRoundTrip(records: seq<seq<string>>, lines: seq<string>)
    requires records != [] && |lines| == |records|
    requires forall i | 0 <= i < |records| :: records[i] != [] && lines[i] == Join(EscapeAll(records[i]), ',')
    ensures ReadRecords(Join(lines + [""], '\n')) == Parsed(records, "")
    decreases |records|
  {
    var text := Join(lines + [""], '\n');
    if |records| == 1 {
      assert (lines + [""])[1..] == [""];
      assert Join(lines[1..] + [""], '\n') == "";
      assert lines[1..] + [""] == [""];
      assert text == lines[0] + ['\n'];
      RecordRoundTrip(records[0], ['\n']);
      assert records == [records[0]];
    } else {
      var tail := Join(lines[1..] + [""], '\n');
      assert (lines + [""])[1..] == lines[1..] + [""];
      assert text == lines[0] + (['\n'] + tail);
      RecordRoundTrip(records[0], ['\n'] + tail);
      assert (['\n'] + tail)[1..] == tail;
      RecordsRoundTrip(records[1..], lines[1..]);
      LinesNonEmpty(records[1..], lines[1..]);
      assert records == [records[0]] + records[1..];
    }
  }

  lemma LinesNonEmpty(records: seq<seq<string>>, lines: seq<string>)
    requires records != [] && |lines| == |records|
    ensures Join(lines + [""], '\n') != ""
  {
    assert (lines + [""])[1..] == lines[1..] + [""];
  }

  lemma {:induction false} OrdinaryNeedsNoQuotes(s: string)
    requires Ordinary(s)
    ensures !NeedsQuotes(s)
  {
    if s != "" {
      OrdinaryNeedsNoQuotes(s[1..]);
    }
  }

  predicate Ordinary(s: string) {
    forall i | 0 <= i < |s| :: !IsSpecial(s[i])
  }

  lemma HeadersNeedNoQuotes()
    ensures EscapeAll(HEADERS) == HEADERS
  {
    forall i | 0 <= i < |HEADERS| ensures EscapeCsv(HEADERS[i]) == HEADERS[i] {
      HeadersAreOrdinary();
      OrdinaryNeedsNoQuotes(HEADERS[i]);
    }
  }

  lemma HeadersAreOrdinary()
    ensures forall i | 0 <= i < |HEADERS| :: Ordinary(HEADERS[i])
  {
    FirstHeaders();
    MiddleHeaders();
    LastHeaders();
  }

  lemma FirstHeaders()
    ensures forall i | 0 <= i < 5 :: Ordinary(HEADERS[i])
  {
  }

  lemma MiddleHeaders()
    ensures forall i | 5 <= i < 10 :: Ordinary(HEADERS[i])
  {
  }

  lemma LastHeaders()
    ensures forall i | 10 <= i < 15 :: Ordinary(HEADERS[i])
  {
  }

  /** Reading a printed table back gives its header and its rows. */
  lemma TableRoundTrip(header: seq<string>, rows: seq<seq<string>>)
    requires header != [] && EscapeAll(header) == header
    requires forall i | 0 <= i < |rows| :: rows[i] != []
    ensures ReadFile(Table(header, rows)) == Parsed([header] + rows, "")
  {
    var lines := [Join(header, ',')] + seq(|rows|, i requires 0 <= i < |rows| => Join(EscapeAll(rows[i]), ','));
    var text := Table(header, rows);
    if |rows| == 0 {
      RecordRoundTrip(header, "");
      assert lines == [Join(header, ',')];
      assert text[1..] == Join(header, ',') + "";
      assert [header] + rows == [header];
    } else {
      assert text[1..] == Join(lines + [""], '\n');
      RecordsRoundTrip([header] + rows, lines);
    }
  }

  /** Reading the export back gives the header and, for every line item, exactly its
      original fields, whatever quotes, commas or line breaks they contain. */
  lemma ExportRoundTrip<N>(items: seq<LineItem<N>>, show: N -> string)
    ensures ReadFile(ToScope3Csv(items, show))
            == Parsed([HEADERS] + seq(|items|, i requires 0 <= i < |items| => Fields(items[i], show)), "")
  {
    HeadersNeedNoQuotes();
    TableRoundTrip(HEADERS, seq(|items|, i requires 0 <= i < |items| => Fields(items[i], show)));
  }
}
