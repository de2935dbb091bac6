/**
 * Delimited text: the quote-aware line splitter (app.js:164-182), the text
 * parser that turns lines into header-keyed rows (app.js:184-196) and the
 * field encoding of the export (app.js:850-855).
 */
module Csv {
  import opened JsText
  import opened JsValues
  import opened Rows
  import opened Seqs

  /**
   * The splitter's state machine run over the rest `s` of the line, with the
   * field read so far (`cur`), whether a quoted section is open (`inQ`) and the
   * fields already ended (`out`).
   */
  function Scan(s: string, cur: string, inQ: bool, out: seq<string>): seq<string>
    decreases |s|
  {
    if s == [] then out + [cur]
    else if s[0] == '"' then
      if inQ && |s| > 1 && s[1] == '"' then Scan(s[2..], cur + ['"'], inQ, out)
      else Scan(s[1..], cur, !inQ, out)
    else if s[0] == ',' && !inQ then Scan(s[1..], [], inQ, out + [cur])
    else Scan(s[1..], cur + [s[0]], inQ, out)
  }

  /** The fields of one line. */
  function SplitLine(line: string): seq<string> {
    Scan(line, [], false, [])
  }

  /** `splitCSVLine(line)`. */
  method SplitCSVLine(line: string) returns (out: seq<string>)
    ensures out == SplitLine(line)
  {
    out := [];
    var cur: string := [];
    var inQ := false;
    var i := 0;
    while i < |line|
      invariant 0 <= i <= |line|
      invariant Scan(line[i..], cur, inQ, out) == SplitLine(line)
    {
      var ch := line[i];
      if ch == '"' {
        if inQ && i + 1 < |line| && line[i + 1] == '"' {
          cur := cur + ['"'];
          i := i + 1;
        } else {
          inQ := !inQ;
        }
      } else if ch == ',' && !inQ {
        out := out + [cur];
        cur := [];
      } else {
        cur := cur + [ch];
      }
      i := i + 1;
    }
    out := out + [cur];
  }

  /**
   * The commas of `s` that separate fields, counted independently of the
   * splitter: a comma separates when an even number of `"` precede it (an odd
   * number when `odd` starts true).
   */
  function Separators(s: string, odd: bool): nat {
    if s == [] then 0
    else (if s[0] == ',' && !odd then 1 else 0) + Separators(s[1..], if s[0] == '"' then !odd else odd)
  }

  lemma {:induction false} ScanLength(s: string, cur: string, inQ: bool, out: seq<string>)
    ensures |Scan(s, cur, inQ, out)| == |out| + 1 + Separators(s, inQ)
    decreases |s|
  {
    if s != [] {
      if s[0] == '"' {
        if inQ && |s| > 1 && s[1] == '"' {
          ScanLength(s[2..], cur + ['"'], inQ, out);
          assert s[1..][1..] == s[2..];
        } else {
          ScanLength(s[1..], cur, !inQ, out);
        }
      } else if s[0] == ',' && !inQ {
        ScanLength(s[1..], [], inQ, out + [cur]);
      } else {
        ScanLength(s[1..], cur + [s[0]], inQ, out);
      }
    }
  }

  /** A line has one field more than it has commas outside quotes; in particular it has at least one. */
  lemma SplitLineFieldCount(line: string)
    ensures |SplitLine(line)| == Separators(line, false) + 1
  {
    ScanLength(line, [], false, []);
  }

  lemma {:induction false} ScanQuoteFree(s: string, cur: string, out: seq<string>)
    requires '"' !in s
    ensures var parts := SplitOn(s, ',');
      Scan(s, cur, false, out) == out + [cur + parts[0]] + parts[1..]
    decreases |s|
  {
    if s == [] {
      assert cur + "" == cur;
    } else if s[0] == ',' {
      ScanQuoteFree(s[1..], [], out + [cur]);
      QuoteFreeComma(s, cur, out);
    } else {
      ScanQuoteFree(s[1..], cur + [s[0]], out);
      QuoteFreeOther(s, cur, out);
    }
  }

  /** The step of `ScanQuoteFree` at a comma. */
  lemma QuoteFreeComma(s: string, cur: string, out: seq<string>)
    requires s != [] && s[0] == ',' && '"' !in s
    requires var parts := SplitOn(s[1..], ',');
      Scan(s[1..], [], false, out + [cur]) == out + [cur] + [[] + parts[0]] + parts[1..]
    ensures var parts := SplitOn(s, ',');
      Scan(s, cur, false, out) == out + [cur + parts[0]] + parts[1..]
  {
    assert s == "," + s[1..];
    ScanComma(s[1..], cur, out);
    SplitOnSep(s, ',');
    CommaStepFields(out, cur, SplitOn(s[1..], ','));
  }

  /** A comma closes `cur` and the first part of the rest opens a new field. */
  lemma CommaStepFields(out: seq<string>, cur: string, parts: seq<string>)
    requires |parts| >= 1
    ensures out + [cur] + [[] + parts[0]] + parts[1..] == out + [cur + ([""] + parts)[0]] + ([""] + parts)[1..]
  {
    assert [] + parts[0] == parts[0];
    assert cur + "" == cur;
    assert ([""] + parts)[1..] == parts == [parts[0]] + parts[1..];
  }

  /** The step of `ScanQuoteFree` at any other character. */
  lemma QuoteFreeOther(s: string, cur: string, out: seq<string>)
    requires s != [] && s[0] != ',' && '"' !in s
    requires var parts := SplitOn(s[1..], ',');
      Scan(s[1..], cur + [s[0]], false, out) == out + [cur + [s[0]] + parts[0]] + parts[1..]
    ensures var parts := SplitOn(s, ',');
      Scan(s, cur, false, out) == out + [cur + parts[0]] + parts[1..]
  {
    var parts := SplitOn(s[1..], ',');
    assert SplitOn(s, ',') == [[s[0]] + parts[0]] + parts[1..];
    assert cur + [s[0]] + parts[0] == cur + ([s[0]] + parts[0]);
  }

  /** On a line without quotes, a comma always ends a field: the splitter is `line.split(",")`. */
  lemma SplitLineWithoutQuotes(line: string)
    requires '"' !in line
    ensures SplitLine(line) == SplitOn(line, ',')
  {
    ScanQuoteFree(line, [], []);
    var parts := SplitOn(line, ',');
    assert [] + parts[0] == parts[0];
    assert parts == [parts[0]] + parts[1..];
  }

  /** `s.replace(/"/g, '""')`. */
  function DoubleQuotes(s: string): (r: string)
    ensures |r| == |s| + CountChar(s, '"')
    ensures forall c :: c in r <==> c in s
    ensures '"' !in s ==> r == s
  {
    if s == [] then []
    else
      assert s == [s[0]] + s[1..];
      (if s[0] == '"' then "\"\"" else [s[0]]) + DoubleQuotes(s[1..])
  }

  /** The export's encoding of one field: quotes doubled, then wrapped in quotes when it holds a comma or a newline. */
  function EncodeField(s: string): string {
    var e := DoubleQuotes(s);
    if ',' in e || '\n' in e then "\"" + e + "\"" else e
  }

  /** Collapses each `""` back to one `"`: the reading of a doubled quote, defined independently of the encoder. */
  function UndoubleQuotes(s: string): string {
    if s == [] then []
    else if |s| >= 2 && s[0] == '"' && s[1] == '"' then "\"" + UndoubleQuotes(s[2..])
    else [s[0]] + UndoubleQuotes(s[1..])
  }

  /** Doubling every quote is undone by collapsing the pairs, and doubles the number of quotes. */
  lemma {:induction false} DoubleQuotesRoundTrip(s: string)
    ensures UndoubleQuotes(DoubleQuotes(s)) == s
    ensures CountChar(DoubleQuotes(s), '"') == 2 * CountChar(s, '"')
  {
    if s != [] {
      DoubleQuotesRoundTrip(s[1..]);
      var rest := DoubleQuotes(s[1..]);
      if s[0] == '"' {
        assert DoubleQuotes(s) == "\"\"" + rest;
        assert (DoubleQuotes(s))[2..] == rest;
        assert CountChar(DoubleQuotes(s), '"') == 1 + CountChar(DoubleQuotes(s)[1..], '"');
        assert DoubleQuotes(s)[1..][1..] == rest;
      } else {
        assert DoubleQuotes(s) == [s[0]] + rest;
        assert DoubleQuotes(s)[1..] == rest;
      }
      assert s == [s[0]] + s[1..];
    }
  }

  /**
   * The encoding of one field is its quote-doubled text, wrapped in quotes
   * exactly when the field holds a comma or a newline.
   */
  lemma EncodeFieldWrapping(s: string)
    ensures ',' in s || '\n' in s ==> EncodeField(s) == "\"" + DoubleQuotes(s) + "\""
    ensures !(',' in s || '\n' in s) ==> EncodeField(s) == DoubleQuotes(s)
  {
  }

  /** Every field of a row, encoded. */
  function EncodeFields(fs: seq<string>): (es: seq<string>)
    ensures |es| == |fs|
  {
    seq(|fs|, i requires 0 <= i < |fs| => EncodeField(fs[i]))
  }

  /** The fields the splitter gets back from their encoding: wrapped ones, and unwrapped ones without quotes. */
  predicate Recoverable(f: string) {
    '"' !in f || ',' in f || '\n' in f
  }

  lemma {:induction false} ScanPlain(f: string, rest: string, cur: string, out: seq<string>)
    requires '"' !in f && ',' !in f
    ensures Scan(f + rest, cur, false, out) == Scan(rest, cur + f, false, out)
    decreases |f|
  {
    if f == [] {
      assert f + rest == rest && cur + f == cur;
    } else {
      assert (f + rest)[1..] == f[1..] + rest;
      ScanPlain(f[1..], rest, cur + [f[0]], out);
      assert cur + [f[0]] + f[1..] == cur + f;
    }
  }

  lemma {:induction false} ScanQuoted(f: string, tail: string, cur: string, out: seq<string>)
    requires tail == [] || tail[0] != '"'
    ensures Scan(DoubleQuotes(f) + "\"" + tail, cur, true, out) == Scan(tail, cur + f, false, out)
    decreases |f|
  {
    if f == [] {
      var s := DoubleQuotes(f) + "\"" + tail;
      assert s == "\"" + tail;
      assert s[1..] == tail;
      assert cur + f == cur;
    } else {
      ScanQuotedStep(f, tail, cur, out);
      ScanQuoted(f[1..], tail, cur + [f[0]], out);
      assert cur + [f[0]] + f[1..] == cur + f;
    }
  }

  /** Inside quotes, the encoding of the first character of a field (a doubled quote or the character itself) is read as that character. */
  lemma ScanQuotedStep(f: string, tail: string, cur: string, out: seq<string>)
    requires f != []
    ensures Scan(DoubleQuotes(f) + "\"" + tail, cur, true, out) == Scan(DoubleQuotes(f[1..]) + "\"" + tail, cur + [f[0]], true, out)
  {
    var d := DoubleQuotes(f[1..]);
    var e := if f[0] == '"' then "\"\"" else [f[0]];
    assert DoubleQuotes(f) == e + d;
    assert DoubleQuotes(f) + "\"" + tail == e + (d + "\"" + tail);
    ScanQuotedChar(f[0], d + "\"" + tail, cur, out);
  }

  /** Inside quotes, a doubled quote is read as one quote and any other character as itself. */
  lemma ScanQuotedChar(c: char, rest: string, cur: string, out: seq<string>)
    ensures Scan((if c == '"' then "\"\"" else [c]) + rest, cur, true, out) == Scan(rest, cur + [c], true, out)
  {
    var s := (if c == '"' then "\"\"" else [c]) + rest;
    if c == '"' {
      assert s[0] == '"' && s[1] == '"' && s[2..] == rest;
    } else {
      assert s[0] == c && s[1..] == rest;
    }
  }

  /** A field wrapped in quotes, followed by a comma or the end of the line, is read back as the field. */
  lemma ScanWrapped(f: string, rest: string, out: seq<string>)
    requires rest == [] || rest[0] == ','
    ensures Scan("\"" + DoubleQuotes(f) + "\"" + rest, [], false, out) == Scan(rest, f, false, out)
  {
    var s := "\"" + DoubleQuotes(f) + "\"" + rest;
    assert s[1..] == DoubleQuotes(f) + "\"" + rest;
    ScanQuoted(f, rest, [], out);
    assert [] + f == f;
  }

  /** One encoded field, followed by a comma or the end of the line, is read back as the field. */
  lemma ScanEncodedField(f: string, rest: string, out: seq<string>)
    requires Recoverable(f)
    requires rest == [] || rest[0] == ','
    ensures Scan(EncodeField(f) + rest, [], false, out) == Scan(rest, f, false, out)
  {
    var e := DoubleQuotes(f);
    if ',' in e || '\n' in e {
      ScanWrapped(f, rest, out);
    } else {
      ScanPlain(f, rest, [], out);
      assert [] + f == f;
    }
  }

  /** Encoding the fields maps each one: the first encoded field, then the encoding of the others. */
  lemma EncodeFieldsCons(fs: seq<string>)
    requires |fs| >= 1
    ensures EncodeFields(fs)[0] == EncodeField(fs[0])
    ensures EncodeFields(fs)[1..] == EncodeFields(fs[1..])
  {
  }

  /** Scanning the encoded line of the fields appends the fields to those already read. */
  lemma {:induction false} ScanJoinEncoded(fs: seq<string>, out: seq<string>)
    requires |fs| >= 1
    requires forall i :: 0 <= i < |fs| ==> Recoverable(fs[i])
    ensures Scan(Join(EncodeFields(fs), ","), [], false, out) == out + fs
    decreases |fs|
  {
    if |fs| == 1 {
      assert Join(EncodeFields(fs), ",") == EncodeField(fs[0]) + [];
      ScanEncodedField(fs[0], [], out);
    } else {
      var es := EncodeFields(fs);
      var tail := Join(EncodeFields(fs[1..]), ",");
      EncodeFieldsCons(fs);
      JoinCons(es, ",");
      ScanEncodedField(fs[0], "," + tail, out);
      ScanComma(tail, fs[0], out);
      ScanJoinEncoded(fs[1..], out + [fs[0]]);
      assert out + [fs[0]] + fs[1..] == out + fs;
    }
  }

  /** A comma outside quotes ends the current field. */
  lemma ScanComma(rest: string, cur: string, out: seq<string>)
    ensures Scan("," + rest, cur, false, out) == Scan(rest, [], false, out + [cur])
  {
    assert ("," + rest)[1..] == rest;
  }

  /**
   * The export line of a row is split back into the row's fields, provided
   * every field is wrapped on export (it holds a comma or a newline) or holds
   * no quote.
   */
  lemma SplitLineOfEncodedFields(fs: seq<string>)
    requires |fs| >= 1
    requires forall i :: 0 <= i < |fs| ==> Recoverable(fs[i])
    ensures SplitLine(Join(EncodeFields(fs), ",")) == fs
  {
    ScanJoinEncoded(fs, []);
    assert [] + fs == fs;
  }

  /** The field `a"b` is encoded as `a""b`, without the wrapping quotes. */
  lemma EncodeQuotedLetter()
    ensures EncodeField("a\"b") == "a\"\"b"
  {
    assert DoubleQuotes("b") == "b";
    assert DoubleQuotes("\"b") == "\"\"" + "b";
    assert DoubleQuotes("a\"b") == "a" + DoubleQuotes("\"b");
  }

  /** The splitter reads `a""b` as the single field `ab`: the doubled quote opens and closes a quoted section. */
  lemma SplitDoubledQuote()
    ensures SplitLine("a\"\"b") == ["ab"]
  {
    var e := "a\"\"b";
    assert e[1..] == "\"\"b" && e[1..][1..] == "\"b" && e[1..][1..][1..] == "b";
    assert [] + ['a'] == "a" && "a" + ['b'] == "ab";
    calc {
      Scan(e, [], false, []);
      Scan("\"\"b", "a", false, []);
      Scan("\"b", "a", true, []);
      Scan("b", "a", false, []);
      Scan([], "ab", false, []);
    }
  }

  /** A field with a quote but no comma or newline is not wrapped, and its quotes are lost on the way back. */
  lemma QuoteWithoutCommaIsLost()
    ensures EncodeField("a\"b") == "a\"\"b"
    ensures SplitLine(Join(EncodeFields(["a\"b"]), ",")) == ["ab"]
  {
    EncodeQuotedLetter();
    SplitDoubledQuote();
    assert EncodeFields(["a\"b"]) == ["a\"\"b"];
    assert Join(["a\"\"b"], ",") == "a\"\"b";
  }

  /** A line with the one carriage return of a `\r\n` pair removed. */
  function DropCR(s: string): (r: string)
    ensures forall c :: c in r ==> c in s
    ensures '\r' !in s ==> r == s
  {
    if |s| > 0 && s[|s| - 1] == '\r' then s[..|s| - 1] else s
  }

  /**
   * `text.split(/\r?\n/)`: split on newlines, each `\r` just before a newline
   * going with it. There is one line more than there are newlines, and no line
   * holds a newline.
   */
  function SplitLines(text: string): (lines: seq<string>)
    ensures |lines| >= 1
    ensures |lines| == CountChar(text, '\n') + 1
    ensures forall i :: 0 <= i < |lines| ==> '\n' !in lines[i]
  {
    var parts := SplitOn(text, '\n');
    seq(|parts|, i requires 0 <= i < |parts| => if i < |parts| - 1 then DropCR(parts[i]) else parts[i])
  }

  /** For text without carriage returns, joining the lines with "\n" gives the text back. */
  lemma SplitLinesJoin(text: string)
    requires '\r' !in text
    ensures Join(SplitLines(text), "\n") == text
  {
    SplitLinesWithoutCR(text);
    JoinSplitOn(text, '\n');
  }

  /** Without carriage returns the lines are the newline-separated pieces. */
  lemma SplitLinesWithoutCR(text: string)
    requires '\r' !in text
    ensures SplitLines(text) == SplitOn(text, '\n')
  {
    SplitOnChars(text, '\n');
  }

  /** The lines with a `\r` appended to every one but the last: `lines.join("\r\n")` split at its newlines. */
  function WithCR(lines: seq<string>): (parts: seq<string>)
    ensures |parts| == |lines|
  {
    seq(|lines|, i requires 0 <= i < |lines| => if i < |lines| - 1 then lines[i] + "\r" else lines[i])
  }

  /** Joining with "\r\n" is joining the lines with their carriage returns with "\n". */
  lemma {:induction false} JoinCRLF(lines: seq<string>)
    requires |lines| >= 1
    ensures Join(lines, "\r\n") == Join(WithCR(lines), "\n")
  {
    if |lines| > 1 {
      JoinCRLF(lines[1..]);
      assert WithCR(lines[1..]) == WithCR(lines)[1..];
      assert Join(lines, "\r\n") == lines[0] + "\r\n" + Join(lines[1..], "\r\n");
      assert Join(WithCR(lines), "\n") == WithCR(lines)[0] + "\n" + Join(WithCR(lines)[1..], "\n");
    }
  }

  /** A file whose lines end in "\r\n" reads back as exactly its lines. */
  lemma SplitLinesCRLF(lines: seq<string>)
    requires |lines| >= 1
    requires forall i :: 0 <= i < |lines| ==> '\n' !in lines[i]
    ensures SplitLines(Join(lines, "\r\n")) == lines
  {
    var parts := WithCR(lines);
    JoinCRLF(lines);
    WithCRNoNewline(lines);
    SplitOnJoin(parts, '\n');
    WithCRDropped(lines);
  }

  /** Appending a carriage return to newline-free lines adds no newline. */
  lemma WithCRNoNewline(lines: seq<string>)
    requires forall i :: 0 <= i < |lines| ==> '\n' !in lines[i]
    ensures forall i :: 0 <= i < |lines| ==> '\n' !in WithCR(lines)[i]
  {
    forall i | 0 <= i < |lines| ensures '\n' !in WithCR(lines)[i] {
      if i < |lines| - 1 {
        assert forall c :: c in WithCR(lines)[i] ==> c in lines[i] || c == '\r';
      }
    }
  }

  /** Dropping the carriage returns that `WithCR` appended gives the lines back. */
  lemma WithCRDropped(lines: seq<string>)
    ensures forall i :: 0 <= i < |lines| - 1 ==> DropCR(WithCR(lines)[i]) == lines[i]
  {
    forall i | 0 <= i < |lines| - 1 ensures DropCR(WithCR(lines)[i]) == lines[i] {
      var p := WithCR(lines)[i];
      assert p[..|p| - 1] == lines[i];
    }
  }

  /**
   * A cell holding a newline is wrapped in quotes on export, but the parser
   * cuts the text at every newline before it looks at quotes: the record
   * comes back as two lines.
   */
  lemma WrappedNewlineBreaksLine()
    ensures EncodeField("a\nb") == "\"a\nb\""
    ensures SplitLines(EncodeField("a\nb")) == ["\"a", "b\""]
  {
    EncodeNewlineCell();
    WrappedNewlinePieces();
    SplitLinesWithoutCR("\"a\nb\"");
  }

  /** The wrapped cell holds no carriage return and its one newline cuts it in two. */
  lemma WrappedNewlinePieces()
    ensures '\r' !in "\"a\nb\""
    ensures SplitOn("\"a\nb\"", '\n') == ["\"a", "b\""]
  {
    var parts := ["\"a", "b\""];
    assert Join(parts, "\n") == "\"a\nb\"";
    SplitOnJoin(parts, '\n');
  }

  /** `a`, newline, `b` holds no quote and is wrapped because of its newline. */
  lemma EncodeNewlineCell()
    ensures EncodeField("a\nb") == "\"a\nb\""
  {
    assert DoubleQuotes("b") == "b";
    assert DoubleQuotes("\nb") == "\n" + DoubleQuotes("b");
    assert DoubleQuotes("a\nb") == "a" + DoubleQuotes("\nb");
  }

  /** `l.trim().length` is not 0. */
  predicate NonBlank(l: string) {
    |Trim(l)| > 0
  }

  /** The lines the parser keeps: the non-blank ones, in order. */
  function DataLines(text: string): seq<string> {
    Filter(SplitLines(text), NonBlank)
  }

  /** The assignments `obj[h] = vals[idx] ?? ""` in header order. */
  function HeaderPairs(headers: seq<string>, vals: seq<string>): (ps: seq<(string, Value)>)
    ensures |ps| == |headers|
    ensures forall i :: 0 <= i < |headers| ==> ps[i] == (headers[i], Str(if i < |vals| then vals[i] else ""))
  {
    if headers == [] then []
    else
      var i := |headers| - 1;
      HeaderPairs(headers[..i], vals) + [(headers[i], Str(if i < |vals| then vals[i] else ""))]
  }

  /** `headers.forEach((h, idx) => obj[h] = vals[idx] ?? "")`. */
  function BuildRow(headers: seq<string>, vals: seq<string>): Row {
    FromPairs(HeaderPairs(headers, vals))
  }

  /** One row per line, keyed by `headers`. */
  function RowsOf(headers: seq<string>, lines: seq<string>): (rows: seq<Row>)
    ensures |rows| == |lines|
  {
    if lines == [] then []
    else RowsOf(headers, lines[..|lines| - 1]) + [BuildRow(headers, SplitLine(lines[|lines| - 1]))]
  }

  /** Parsing one more line appends its row. */
  lemma RowsOfSnoc(headers: seq<string>, data: seq<string>, i: nat)
    requires i < |data|
    ensures RowsOf(headers, data[..i + 1]) == RowsOf(headers, data[..i]) + [BuildRow(headers, SplitLine(data[i]))]
  {
    assert data[..i + 1][..i] == data[..i];
  }

  /** The trimmed cells of the first line: the header names. */
  function Headers(lines: seq<string>): seq<string>
    requires |lines| > 0
  {
    TrimAll(SplitLine(lines[0]))
  }

  /** What `parseCSV(text)` returns. */
  function ParsedRows(text: string): seq<Row> {
    var lines := DataLines(text);
    if |lines| == 0 then [] else RowsOf(Headers(lines), lines[1..])
  }

  /** The pairs of one more header. */
  lemma HeaderPairsPrefix(headers: seq<string>, vals: seq<string>, idx: nat)
    requires idx < |headers|
    ensures HeaderPairs(headers[..idx + 1], vals) ==
      HeaderPairs(headers[..idx], vals) + [(headers[idx], Str(if idx < |vals| then vals[idx] else ""))]
  {
    assert headers[..idx + 1][..idx] == headers[..idx];
  }

  /** Assigning one more header's cell. */
  lemma HeaderPairsSnoc(headers: seq<string>, vals: seq<string>, idx: nat)
    requires idx < |headers|
    ensures FromPairs(HeaderPairs(headers[..idx + 1], vals)) ==
      FromPairs(HeaderPairs(headers[..idx], vals)).Set(headers[idx], Str(if idx < |vals| then vals[idx] else ""))
  {
    HeaderPairsPrefix(headers, vals, idx);
    FromPairsSnoc(HeaderPairs(headers[..idx], vals), (headers[idx], Str(if idx < |vals| then vals[idx] else "")));
  }

  /** `const obj = {}; headers.forEach((h, idx) => obj[h] = vals[idx] ?? "")`. */
  method FillRow(headers: seq<string>, vals: seq<string>) returns (obj: Row)
    ensures obj == BuildRow(headers, vals)
  {
    obj := EmptyRow;
    var idx := 0;
    while idx < |headers|
      invariant 0 <= idx <= |headers|
      invariant obj == FromPairs(HeaderPairs(headers[..idx], vals))
    {
      var cell := Str(if idx < |vals| then vals[idx] else "");
      HeaderPairsSnoc(headers, vals, idx);
      obj := obj.Set(headers[idx], cell);
      idx := idx + 1;
    }
    assert headers[..|headers|] == headers;
  }

  /** The header line, then the loop over the data lines after it. */
  method ParseLines(lines: seq<string>) returns (rows: seq<Row>)
    requires |lines| > 0
    ensures rows == RowsOf(Headers(lines), lines[1..])
  {
    var headerCells := SplitCSVLine(lines[0]);
    var headers := TrimAll(headerCells);
    rows := ParseDataLines(headers, lines[1..]);
  }

  /** `for (let i = 1; i < lines.length; i++)`: one row per data line. */
  method ParseDataLines(headers: seq<string>, data: seq<string>) returns (rows: seq<Row>)
    ensures rows == RowsOf(headers, data)
  {
    rows := [];
    for i := 0 to |data|
      invariant rows == RowsOf(headers, data[..i])
    {
      var vals := SplitCSVLine(data[i]);
      var obj := FillRow(headers, vals);
      RowsOfSnoc(headers, data, i);
      rows := rows + [obj];
    }
    assert data[..|data|] == data;
  }

  /** `parseCSV(text)`. */
  method ParseCSV(text: string) returns (rows: seq<Row>)
    ensures rows == ParsedRows(text)
  {
    var lines := DataLines(text);
    if |lines| == 0 {
      return [];
    }
    rows := ParseLines(lines);
  }

  /** A row has exactly the header names as keys, listed once each. */
  lemma BuildRowKeys(headers: seq<string>, vals: seq<string>)
    ensures BuildRow(headers, vals).Valid()
    ensures forall k :: BuildRow(headers, vals).Has(k) <==> k in headers
  {
    var ps := HeaderPairs(headers, vals);
    forall k ensures BuildRow(headers, vals).Has(k) <==> k in headers {
      if k in headers {
        var i :| 0 <= i < |headers| && headers[i] == k;
        assert ps[i].0 == k;
      }
    }
  }

  /**
   * The cell under header `headers[j]` (its last occurrence) is the `j`-th
   * field of the line, or "" when the line has fewer fields; extra fields are
   * ignored.
   */
  lemma BuildRowCell(headers: seq<string>, vals: seq<string>, j: nat)
    requires j < |headers|
    requires forall k :: j < k < |headers| ==> headers[k] != headers[j]
    ensures BuildRow(headers, vals).Get(headers[j]) == Str(if j < |vals| then vals[j] else "")
  {
    var ps := HeaderPairs(headers, vals);
    FromPairsLastWins(ps, j);
  }

  /** With distinct header names the row lists its keys in header order. */
  lemma BuildRowKeyOrder(headers: seq<string>, vals: seq<string>)
    requires forall i, j :: 0 <= i < j < |headers| ==> headers[i] != headers[j]
    ensures BuildRow(headers, vals).keys == headers
  {
    var ps := HeaderPairs(headers, vals);
    FromPairsDistinctKeys(ps);
  }

  /**
   * Blank lines are dropped; the first kept line is the header; every later
   * kept line gives one row, keyed by the header names; no kept line gives `[]`.
   */
  lemma ParsedRowsShape(text: string)
    ensures var lines := DataLines(text);
      && (|lines| == 0 ==> ParsedRows(text) == [])
      && (|lines| > 0 ==> |ParsedRows(text)| == |lines| - 1)
      && forall i :: 0 <= i < |ParsedRows(text)| ==>
           && ParsedRows(text)[i].Valid()
           && forall k :: ParsedRows(text)[i].Has(k) <==> k in Headers(lines)
  {
    var lines := DataLines(text);
    if |lines| > 0 {
      RowsOfShape(Headers(lines), lines[1..]);
    }
  }

  /** Every row of `RowsOf` is keyed by exactly the header names. */
  lemma RowsOfShape(headers: seq<string>, ls: seq<string>)
    ensures forall i :: 0 <= i < |ls| ==>
      && RowsOf(headers, ls)[i].Valid()
      && forall k :: RowsOf(headers, ls)[i].Has(k) <==> k in headers
  {
    forall i | 0 <= i < |ls|
      ensures RowsOf(headers, ls)[i].Valid()
      ensures forall k :: RowsOf(headers, ls)[i].Has(k) <==> k in headers
    {
      RowsOfAt(headers, ls, i);
      BuildRowKeys(headers, SplitLine(ls[i]));
    }
  }

  /** The `i`-th row comes from the `i`-th line. */
  lemma {:induction false} RowsOfAt(headers: seq<string>, ls: seq<string>, i: nat)
    requires i < |ls|
    ensures RowsOf(headers, ls)[i] == BuildRow(headers, SplitLine(ls[i]))
  {
    if i < |ls| - 1 {
      RowsOfAt(headers, ls[..|ls| - 1], i);
    }
  }

  /** Empty text parses to no rows. */
  lemma ParseEmpty()
    ensures ParsedRows("") == []
  {
    assert SplitOn("", '\n') == [""];
    assert SplitLines("") == [""];
    assert !NonBlank("");
    assert DataLines("") == Filter([""], NonBlank);
    assert [""][..0] == [];
  }
}
