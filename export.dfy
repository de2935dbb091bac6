/**
 * The CSV export of the detail view (`exportViewToCSV`, app.js:842-857): a
 * header line of the column labels, then one line per row whose cells are
 * encoded with `EncodeField`. The download of the resulting text is not
 * modelled.
 */
module Export {
  import opened JsText
  import opened JsValues
  import opened Rows
  import opened Csv
  import opened Schema
  import opened DetailView

  /** `String(val)` after a `null` or `undefined` cell became `""`. */
  function CellText(r: Row, col: ViewColumn, rt: Runtime): string {
    NullishToStr(r.Get(col.key), rt)
  }

  /** The texts of the row's cells, column by column. */
  function CellTexts(r: Row, cols: seq<ViewColumn>, rt: Runtime): (ts: seq<string>)
    ensures |ts| == |cols|
    ensures forall i :: 0 <= i < |cols| ==> ts[i] == CellText(r, cols[i], rt)
  {
    seq(|cols|, i requires 0 <= i < |cols| => CellText(r, cols[i], rt))
  }

  /** `header.join(",")`: the labels, not encoded. */
  function HeaderLine(cols: seq<ViewColumn>): string {
    Join(Labels(cols), ",")
  }

  /** `row.join(",")` for `row = cols.map(...)`: the encoded cell texts. */
  function RowLine(r: Row, cols: seq<ViewColumn>, rt: Runtime): string {
    Join(EncodeFields(CellTexts(r, cols, rt)), ",")
  }

  /** The lines of the export of `view` with columns `cols`: the header, then one line per row. */
  function ExportLines(view: seq<Row>, cols: seq<ViewColumn>, rt: Runtime): (lines: seq<string>)
    ensures |lines| == |view| + 1
  {
    [HeaderLine(cols)] + seq(|view|, i requires 0 <= i < |view| => RowLine(view[i], cols, rt))
  }

  /** `lines.join("\n")`: the text of the file offered for download, for warehouse `wh`. */
  function ExportText(view: seq<Row>, wh: string, rt: Runtime): string {
    Join(ExportLines(view, ViewColumns(wh), rt), "\n")
  }

  /** The loop of `exportViewToCSV` that pushes the header and then one line per row. */
  method ExportViewLines(view: seq<Row>, wh: string, rt: Runtime) returns (lines: seq<string>)
    ensures lines == ExportLines(view, ViewColumns(wh), rt)
  {
    var cols := ViewColumns(wh);
    lines := PushLines(view, cols, rt);
  }

  /** The header line, then `lines.push(row.join(","))` for each row. */
  method PushLines(view: seq<Row>, cols: seq<ViewColumn>, rt: Runtime) returns (lines: seq<string>)
    ensures lines == ExportLines(view, cols, rt)
  {
    var header := Labels(cols);
    lines := [Join(header, ",")];
    for n := 0 to |view|
      invariant |lines| == n + 1
      invariant lines[0] == HeaderLine(cols)
      invariant forall i :: 0 <= i < n ==> lines[i + 1] == RowLine(view[i], cols, rt)
    {
      var row := EncodeFields(CellTexts(view[n], cols, rt));
      lines := lines + [Join(row, ",")];
    }
  }

  /** The fixed labels hold no comma or quote; a warehouse label holds one exactly when the warehouse name does. */
  lemma LabelSpecials(wh: string, c: char)
    requires c == ',' || c == '"'
    ensures c !in Labels(ViewColumns(wh))[0] && c !in Labels(ViewColumns(wh))[1]
    ensures forall i :: 2 <= i < 7 ==> (c in Labels(ViewColumns(wh))[i] <==> c in wh)
  {
    var labels := Labels(ViewColumns(wh));
    ViewColumnLabels(wh);
    ViewColumnKeys(wh);
    assert labels[0] == "Codigo" && labels[1] == "desc_prod";
    forall i | 2 <= i < 7 ensures c in labels[i] <==> c in wh {
      var f := Fields[i - 2];
      PrefixPlainText(f);
      assert labels[i] == ColumnsOf(wh)[i - 2] == Prefix(f) + wh;
      InConcat(Prefix(f), wh, c);
    }
  }

  /** The header line holds a quote only when the warehouse name does. */
  lemma HeaderQuotes(wh: string)
    requires '"' !in wh
    ensures '"' !in HeaderLine(ViewColumns(wh))
  {
    var labels := Labels(ViewColumns(wh));
    LabelSpecials(wh, '"');
    assert forall i :: 0 <= i < |labels| ==> '"' !in labels[i];
    if '"' in HeaderLine(ViewColumns(wh)) {
      JoinChars(labels, ",", '"');
    }
  }

  /**
   * For a warehouse name without commas or quotes, splitting the header line
   * gives back the column labels, which are the column keys.
   */
  lemma HeaderRoundTrip(view: seq<Row>, wh: string, rt: Runtime)
    requires ',' !in wh && '"' !in wh
    ensures SplitLine(ExportLines(view, ViewColumns(wh), rt)[0]) == Labels(ViewColumns(wh))
    ensures Labels(ViewColumns(wh)) == Keys(ViewColumns(wh))
  {
    var labels := Labels(ViewColumns(wh));
    HeaderQuotes(wh);
    LabelSpecials(wh, ',');
    assert forall i :: 0 <= i < |labels| ==> ',' !in labels[i];
    SplitLineWithoutQuotes(HeaderLine(ViewColumns(wh)));
    SplitOnJoin(labels, ',');
    ViewColumnLabels(wh);
  }

  /**
   * The header is written without encoding: a warehouse name holding a comma
   * (and no quote) makes the header split into other fields than the labels.
   */
  lemma HeaderWithCommaMisread(view: seq<Row>, wh: string, rt: Runtime)
    requires ',' in wh && '"' !in wh
    ensures SplitLine(ExportLines(view, ViewColumns(wh), rt)[0]) != Labels(ViewColumns(wh))
  {
    var labels := Labels(ViewColumns(wh));
    HeaderQuotes(wh);
    LabelSpecials(wh, ',');
    SplitLineWithoutQuotes(HeaderLine(ViewColumns(wh)));
    assert ',' in labels[2];
  }

  /**
   * The line of each row splits back into the row's cell texts, provided each
   * of them is wrapped on export (it holds a comma or a newline) or holds no
   * quote. This is about one line: the parser cuts the whole text at newlines
   * first, so a cell holding a newline does not come back through it
   * (`Csv.WrappedNewlineBreaksLine`).
   */
  lemma RowRoundTrip(view: seq<Row>, cols: seq<ViewColumn>, rt: Runtime, n: nat)
    requires n < |view| && |cols| >= 1
    requires forall i :: 0 <= i < |cols| ==> Recoverable(CellText(view[n], cols[i], rt))
    ensures SplitLine(ExportLines(view, cols, rt)[n + 1]) == CellTexts(view[n], cols, rt)
  {
    SplitLineOfEncodedFields(CellTexts(view[n], cols, rt));
  }
}
