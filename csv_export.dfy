/** CSVExportHelper.exportAttendanceToCSV: the text handed to the file writer, append by
    append, and the string it returns. The file system is a `Sink` that says which of its
    calls throw an IOException. */
module CsvExportHelper {
  import opened Tables

  /** An exception; Kotlin renders a null message as "null" inside a string template. */
  datatype Fault = Fault(message: Option<string>)

  function Render(message: Option<string>): string
  {
    match message
    case None => "null"
    case Some(text) => text
  }

  /** Which call of the writer throws: the append after `succeeding` successful ones. */
  datatype AppendFault = AppendFault(succeeding: nat, fault: Fault)

  /** The export directory and the faults of the writer opened in it. */
  datatype Sink = Sink(directory: string, openFault: Option<Fault>, appendFault: Option<AppendFault>,
                       flushFault: Option<Fault>, closeFault: Option<Fault>)

  /** How the helper ends: it returns a string, or an exception escapes it. */
  datatype Exported = Returned(value: string) | Threw(fault: Fault)

  /** joinToString(separator) */
  function Join(parts: seq<string>, sep: char): string
  {
    if |parts| == 0 then ""
    else if |parts| == 1 then parts[0]
    else parts[0] + [sep] + Join(parts[1..], sep)
  }

  /** Kotlin's split(separator) on one character: every separator ends a part, empty parts
      (trailing ones included) are kept, so there is always at least one part. */
  function Split(s: string, sep: char): (r: seq<string>)
    ensures |r| > 0
    decreases |s|
  {
    if |s| == 0 then [""]
    else
      var rest := Split(s[1..], sep);
      if s[0] == sep then [""] + rest
      else [[s[0]] + rest[0]] + rest[1..]
  }

  /** The strings appended to the writer, in order: the header fields joined by ",", a
      newline, then the same for every data row. */
  function Pieces(headers: seq<string>, data: seq<seq<string>>): (r: seq<string>)
    ensures |r| == 2 * |data| + 2
  {
    if |data| == 0 then [Join(headers, ','), "\n"]
    else Pieces(headers, data[..|data| - 1]) + [Join(data[|data| - 1], ','), "\n"]
  }

  /** The text a sequence of appends leaves in the file. */
  function Concat(pieces: seq<string>): string
  {
    if |pieces| == 0 then "" else Concat(pieces[..|pieces| - 1]) + pieces[|pieces| - 1]
  }

  /** Everything the helper writes when no call fails. */
  function CsvText(headers: seq<string>, data: seq<seq<string>>): string
  {
    Concat(Pieces(headers, data))
  }

  /** One CSV line: the fields verbatim, separated by commas, ended by a newline. */
  function Line(fields: seq<string>): string
  {
    Join(fields, ',') + "\n"
  }

  /** The lines of the rows, first row first. */
  function Lines(data: seq<seq<string>>): string
  {
    if |data| == 0 then "" else Line(data[0]) + Lines(data[1..])
  }

  function FilePath(directory: string, fileName: string): string
  {
    directory + "/" + fileName + ".csv"
  }

  /** What the helper returns, or the exception that escapes it: a failed open is caught and
      reported; a failing close in the finally block throws and overrides any return; a
      failed append or flush is caught and reported; otherwise the file's path. */
  function ExportResult(sink: Sink, fileName: string, headers: seq<string>, data: seq<seq<string>>): (r: Exported)
    ensures sink.openFault.Some? ==> r == Returned("Error: " + Render(sink.openFault.value.message))
    ensures sink.openFault.None? && sink.closeFault.Some? ==> r == Threw(sink.closeFault.value)
    ensures sink.openFault.None? && sink.closeFault.None? &&
            sink.appendFault.Some? && sink.appendFault.value.succeeding < 2 * |data| + 2 ==>
              r == Returned("Error: " + Render(sink.appendFault.value.fault.message))
    ensures sink.openFault.None? && sink.closeFault.None? &&
            (sink.appendFault.None? || sink.appendFault.value.succeeding >= 2 * |data| + 2) &&
            sink.flushFault.Some? ==>
              r == Returned("Error: " + Render(sink.flushFault.value.message))
    ensures r.Returned? && sink.openFault.None? && sink.flushFault.None? &&
            (sink.appendFault.None? || sink.appendFault.value.succeeding >= 2 * |data| + 2) ==>
              r.value == FilePath(sink.directory, fileName)
  {
    if sink.openFault.Some? then Returned("Error: " + Render(sink.openFault.value.message))
    else if sink.closeFault.Some? then Threw(sink.closeFault.value)
    else if sink.appendFault.Some? && sink.appendFault.value.succeeding < |Pieces(headers, data)| then
      Returned("Error: " + Render(sink.appendFault.value.fault.message))
    else if sink.flushFault.Some? then Returned("Error: " + Render(sink.flushFault.value.message))
    else Returned(FilePath(sink.directory, fileName))
  }

  /** The text the writer accepted: nothing when it could not be opened, otherwise the
      appends that went through. */
  function Written(sink: Sink, headers: seq<string>, data: seq<seq<string>>): string
  {
    var pieces := Pieces(headers, data);
    if sink.openFault.Some? then ""
    else if sink.appendFault.Some? && sink.appendFault.value.succeeding < |pieces| then
      Concat(pieces[..sink.appendFault.value.succeeding])
    else Concat(pieces)
  }

  /** One writer.append call. */
  method AppendPiece(sink: Sink, text: string, appended: nat, piece: string) returns (failure: Option<Fault>, text': string, appended': nat)
    ensures sink.appendFault.Some? && sink.appendFault.value.succeeding == appended ==>
              failure == Some(sink.appendFault.value.fault) && text' == text && appended' == appended
    ensures !(sink.appendFault.Some? && sink.appendFault.value.succeeding == appended) ==>
              failure == None && text' == text + piece && appended' == appended + 1
  {
    if sink.appendFault.Some? && sink.appendFault.value.succeeding == appended {
      return Some(sink.appendFault.value.fault), text, appended;
    }
    return None, text + piece, appended + 1;
  }

  /** exportAttendanceToCSV: the header line, then one line per row in list order. */
  method ExportAttendanceToCsv(sink: Sink, fileName: string, headers: seq<string>, data: seq<seq<string>>)
    returns (result: Exported, written: string)
    ensures result == ExportResult(sink, fileName, headers, data)
    ensures written == Written(sink, headers, data)
  {
    if sink.openFault.Some? {
      return Returned("Error: " + Render(sink.openFault.value.message)), "";
    }
    var failure;
    failure, written := AppendAll(sink, headers, data);
    if failure.None? {
      failure := sink.flushFault;
    }
    if sink.closeFault.Some? {
      return Threw(sink.closeFault.value), written;
    }
    if failure.Some? {
      return Returned("Error: " + Render(failure.value.message)), written;
    }
    return Returned(FilePath(sink.directory, fileName)), written;
  }

  /** The appends inside the try block of an opened writer: the header line, then every row
      line, stopping at the first append that throws. */
  method AppendAll(sink: Sink, headers: seq<string>, data: seq<seq<string>>)
    returns (failure: Option<Fault>, written: string)
    requires sink.openFault.None?
    ensures failure == if sink.appendFault.Some? && sink.appendFault.value.succeeding < 2 * |data| + 2
                       then Some(sink.appendFault.value.fault) else None
    ensures written == Written(sink, headers, data)
  {
    var appended: nat;
    failure, written, appended := AppendPiece(sink, "", 0, Join(headers, ','));
    if failure.None? {
      failure, written, appended := AppendPiece(sink, written, appended, "\n");
    }
    PiecesPrefix(headers, data, 0);
    assert Pieces(headers, data)[..1] == [Join(headers, ',')];
    HeaderPieces(headers);
    assert data[..0] == [];
    var i := 0;
    while i < |data| && failure.None?
      invariant 0 <= i <= |data|
      invariant failure.None? ==>
                  written == Concat(Pieces(headers, data[..i])) &&
                  !(sink.appendFault.Some? && sink.appendFault.value.succeeding < 2 * i + 2)
      invariant failure.Some? ==>
                  sink.appendFault.Some? && failure == Some(sink.appendFault.value.fault) &&
                  sink.appendFault.value.succeeding < |Pieces(headers, data)| &&
                  written == Concat(Pieces(headers, data)[..sink.appendFault.value.succeeding])
    {
      failure, written := AppendRow(sink, headers, data, i, written);
      i := i + 1;
    }
    if i == |data| {
      assert data[..i] == data;
    }
  }

  /** The two appends of row i: its fields joined by ",", then a newline. */
  method AppendRow(sink: Sink, headers: seq<string>, data: seq<seq<string>>, i: nat, written: string)
    returns (failure: Option<Fault>, written': string)
    requires i < |data|
    requires written == Concat(Pieces(headers, data[..i]))
    requires !(sink.appendFault.Some? && sink.appendFault.value.succeeding < 2 * i + 2)
    ensures failure.None? ==>
              written' == Concat(Pieces(headers, data[..i + 1])) &&
              !(sink.appendFault.Some? && sink.appendFault.value.succeeding < 2 * i + 4)
    ensures failure.Some? ==>
              sink.appendFault.Some? && failure == Some(sink.appendFault.value.fault) &&
              sink.appendFault.value.succeeding < |Pieces(headers, data)| &&
              written' == Concat(Pieces(headers, data)[..sink.appendFault.value.succeeding])
  {
    RowStep(headers, data, i);
    var appended: nat;
    failure, written', appended := AppendPiece(sink, written, 2 * i + 2, Join(data[i], ','));
    if failure.None? {
      failure, written', appended := AppendPiece(sink, written', appended, "\n");
      if failure.Some? {
        assert sink.appendFault.value.succeeding == 2 * i + 3;
      }
    } else {
      assert sink.appendFault.value.succeeding == 2 * i + 2;
    }
  }

  /** The appends for the first rows are a prefix of the appends for all of them. */
  lemma {:induction false} PiecesPrefix(headers: seq<string>, data: seq<seq<string>>, i: nat)
    requires i <= |data|
    ensures Pieces(headers, data)[..2 * i + 2] == Pieces(headers, data[..i])
    decreases |data|
  {
    if i < |data| {
      var init := data[..|data| - 1];
      PiecesPrefix(headers, init, i);
      assert init[..i] == data[..i];
    } else {
      assert data[..i] == data;
    }
  }

  /** What the two appends of row i add, to the text so far and to a failed export's text. */
  lemma RowStep(headers: seq<string>, data: seq<seq<string>>, i: nat)
    requires i < |data|
    ensures var before := Pieces(headers, data[..i]);
            && Concat(Pieces(headers, data[..i + 1])) == Concat(before) + Join(data[i], ',') + "\n"
            && Concat(Pieces(headers, data)[..2 * i + 2]) == Concat(before)
            && Concat(Pieces(headers, data)[..2 * i + 3]) == Concat(before) + Join(data[i], ',')
  {
    PiecesPrefix(headers, data, i);
    PiecesPrefix(headers, data, i + 1);
    var before := Pieces(headers, data[..i]);
    assert data[..i + 1][..i] == data[..i];
    assert Pieces(headers, data[..i + 1]) == before + [Join(data[i], ',')] + ["\n"];
    assert Pieces(headers, data)[..2 * i + 3] == before + [Join(data[i], ',')];
    ConcatSnoc(before, Join(data[i], ','));
    ConcatSnoc(before + [Join(data[i], ',')], "\n");
  }

  lemma ConcatSnoc(pieces: seq<string>, piece: string)
    ensures Concat(pieces + [piece]) == Concat(pieces) + piece
  {
    assert (pieces + [piece])[..|pieces|] == pieces;
  }

  /** Appending a row to the data appends its line to the text. */
  lemma CsvTextSnoc(headers: seq<string>, data: seq<seq<string>>, row: seq<string>)
    ensures CsvText(headers, data + [row]) == CsvText(headers, data) + Line(row)
  {
    var p := Pieces(headers, data);
    assert (data + [row])[..|data|] == data;
    ConcatSnoc(p, Join(row, ','));
    ConcatSnoc(p + [Join(row, ',')], "\n");
    assert p + [Join(row, ','), "\n"] == p + [Join(row, ',')] + ["\n"];
  }

  lemma {:induction false} LinesSnoc(data: seq<seq<string>>, row: seq<string>)
    ensures Lines(data + [row]) == Lines(data) + Line(row)
    decreases |data|
  {
    if |data| == 0 {
      assert [row][1..] == [];
    } else {
      assert (data + [row])[1..] == data[1..] + [row];
      LinesSnoc(data[1..], row);
    }
  }

  /** The writer receives the header line followed by each row's line: the fields verbatim
      between commas, with no quoting or escaping. */
  lemma {:induction false} CsvTextIsLines(headers: seq<string>, data: seq<seq<string>>)
    ensures CsvText(headers, data) == Line(headers) + Lines(data)
    decreases |data|
  {
    if |data| > 0 {
      var init := data[..|data| - 1];
      var last := data[|data| - 1];
      assert data == init + [last];
      CsvTextIsLines(headers, init);
      CsvTextSnoc(headers, init, last);
      LinesSnoc(init, last);
    } else {
      HeaderPieces(headers);
    }
  }

  lemma HeaderPieces(headers: seq<string>)
    ensures Concat(Pieces(headers, [])) == Line(headers)
  {
    ConcatSnoc([], Join(headers, ','));
    ConcatSnoc([Join(headers, ',')], "\n");
  }

  /** The text written always starts the full text: a failure only cuts it short. */
  lemma {:induction false} ConcatPrefix(pieces: seq<string>, k: nat)
    requires k <= |pieces|
    ensures Concat(pieces[..k]) <= Concat(pieces)
    decreases |pieces|
  {
    if k < |pieces| {
      var init := pieces[..|pieces| - 1];
      ConcatPrefix(init, k);
      assert init[..k] == pieces[..k];
    } else {
      assert pieces[..k] == pieces;
    }
  }

  /** Whatever fails, the writer has accepted a prefix of the full text, and with no failure
      all of it: the header line and every row's line and the helper returns the file's path. */
  lemma WrittenIsPrefix(sink: Sink, fileName: string, headers: seq<string>, data: seq<seq<string>>)
    ensures Written(sink, headers, data) <= Line(headers) + Lines(data)
    ensures sink.openFault.None? && sink.appendFault.None? && sink.flushFault.None? && sink.closeFault.None? ==>
              Written(sink, headers, data) == Line(headers) + Lines(data) &&
              ExportResult(sink, fileName, headers, data) == Returned(FilePath(sink.directory, fileName))
  {
    CsvTextIsLines(headers, data);
    var pieces := Pieces(headers, data);
    if sink.openFault.None? && sink.appendFault.Some? && sink.appendFault.value.succeeding < |pieces| {
      ConcatPrefix(pieces, sink.appendFault.value.succeeding);
    }
  }

  /** With no data rows, the writer accepts exactly the header line. */
  lemma HeaderOnly(headers: seq<string>)
    ensures CsvText(headers, []) == Line(headers)
  {
    CsvTextIsLines(headers, []);
  }

  /** Splitting a part free of the separator gives it back alone. */
  lemma {:induction false} SplitWithoutSeparator(p: string, sep: char)
    requires sep !in p
    ensures Split(p, sep) == [p]
    decreases |p|
  {
    if |p| > 0 {
      SplitWithoutSeparator(p[1..], sep);
      assert [p[0]] + p[1..] == p;
    }
  }

  /** A separator after a part free of it ends exactly that part. */
  lemma {:induction false} SplitAfterPart(p: string, t: string, sep: char)
    requires sep !in p
    ensures Split(p + [sep] + t, sep) == [p] + Split(t, sep)
    decreases |p|
  {
    var s := p + [sep] + t;
    if |p| == 0 {
      assert s[1..] == t;
    } else {
      assert s[1..] == p[1..] + [sep] + t;
      SplitAfterPart(p[1..], t, sep);
      assert [p[0]] + p[1..] == p;
    }
  }

  /** split undoes joinToString when no part contains the separator. */
  lemma {:induction false} SplitJoin(parts: seq<string>, sep: char)
    requires |parts| > 0
    requires forall p :: p in parts ==> sep !in p
    ensures Split(Join(parts, sep), sep) == parts
    decreases |parts|
  {
    if |parts| == 1 {
      SplitWithoutSeparator(parts[0], sep);
    } else {
      SplitJoin(parts[1..], sep);
      SplitAfterPart(parts[0], Join(parts[1..], sep), sep);
      assert [parts[0]] + parts[1..] == parts;
    }
  }

  /** A character that is neither the separator nor in any part is not in the joined text. */
  lemma {:induction false} JoinAvoids(parts: seq<string>, sep: char, c: char)
    requires c != sep
    requires forall p :: p in parts ==> c !in p
    ensures c !in Join(parts, sep)
    decreases |parts|
  {
    if |parts| > 1 {
      JoinAvoids(parts[1..], sep, c);
    }
  }

  /** Each row's fields joined by commas. */
  function JoinedRows(data: seq<seq<string>>): (r: seq<string>)
    ensures |r| == |data|
  {
    seq(|data|, i requires 0 <= i < |data| => Join(data[i], ','))
  }

  lemma {:induction false} LinesAsJoin(data: seq<seq<string>>)
    ensures Lines(data) == Join(JoinedRows(data) + [""], '\n')
    decreases |data|
  {
    if |data| > 0 {
      LinesAsJoin(data[1..]);
      assert JoinedRows(data[1..]) == JoinedRows(data)[1..];
      assert (JoinedRows(data) + [""])[1..] == JoinedRows(data[1..]) + [""];
    }
  }

  /** A field is clean when it holds neither separator. */
  predicate Clean(field: string)
  {
    ',' !in field && '\n' !in field
  }

  /** Round trip: when every field is clean and no line is empty, splitting the text on
      newlines gives the header line, one line per row and a final empty string, and
      splitting each line on commas gives its fields back. */
  lemma CsvRoundTrip(headers: seq<string>, data: seq<seq<string>>)
    requires |headers| > 0 && forall f :: f in headers ==> Clean(f)
    requires forall i :: 0 <= i < |data| ==> |data[i]| > 0 && forall f :: f in data[i] ==> Clean(f)
    ensures var lines := Split(CsvText(headers, data), '\n');
            && |lines| == |data| + 2
            && Split(lines[0], ',') == headers
            && (forall i :: 0 <= i < |data| ==> Split(lines[i + 1], ',') == data[i])
            && lines[|data| + 1] == ""
  {
    CsvTextIsLines(headers, data);
    LinesAsJoin(data);
    var rows := JoinedRows(data);
    var parts := [Join(headers, ',')] + rows + [""];
    assert Line(headers) + Lines(data) == Join(parts, '\n') by {
      assert parts[1..] == rows + [""];
    }
    forall p | p in parts ensures '\n' !in p {
      if p == Join(headers, ',') {
        JoinAvoids(headers, ',', '\n');
      } else if p in rows {
        var i :| 0 <= i < |rows| && rows[i] == p;
        JoinAvoids(data[i], ',', '\n');
      }
    }
    SplitJoin(parts, '\n');
    SplitJoin(headers, ',');
    forall i | 0 <= i < |data| ensures Split(parts[i + 1], ',') == data[i] {
      SplitJoin(data[i], ',');
    }
  }

  /** No quoting: of two fields, a second one holding a comma comes back as two, so the row
      reads back with three fields. */
  lemma CommaInFieldSplits(first: string, before: string, after: string)
    requires ',' !in first && ',' !in before && ',' !in after
    ensures Split(Join([first, before + [','] + after], ','), ',') == [first, before, after]
  {
    var field := before + [','] + after;
    assert Join([first, field], ',') == first + [','] + field;
    SplitWithoutSeparator(after, ',');
    SplitAfterPart(before, after, ',');
    SplitAfterPart(first, field, ',');
  }
}
