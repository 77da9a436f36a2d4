/** `generate_html_table`: the e-mail body, an HTML table with one header
    row and one row per certificate, each cell text inserted verbatim. */
module HtmlTable {
  import opened Results
  import opened Text

  /** One row of the report: domain, expiry timestamp as received, countdown label. */
  datatype Row = Row(domain: string, endTime: string, countdown: string)

  const CellStyle := "style='border: 1px solid black; padding: 5px;'"
  const TableOpen := "<table style='border: 1px solid black; border-collapse: collapse;'>"
  const HeaderRow := "<tr><th " + CellStyle + ">域名</th>"
                   + "<th " + CellStyle + ">证书到期时间</th>"
                   + "<th " + CellStyle + ">倒计时</th></tr>"
  const CellOpen := "<td " + CellStyle + ">"
  const RowOpen := "<tr>" + CellOpen
  const CellBreak := "</td>" + CellOpen
  const RowClose := "</td></tr>"
  const TableClose := "</table>"

  function RowHtml(r: Row): string {
    RowOpen + (r.domain + (CellBreak + (r.endTime + (CellBreak + (r.countdown + RowClose)))))
  }

  function RowsHtml(rows: seq<Row>): string {
    if |rows| == 0 then "" else RowHtml(rows[0]) + RowsHtml(rows[1..])
  }

  /** `generate_html_table(rows)`: it opens with the table tag and the
      header row and closes with `</table>`. */
  function GenerateHtmlTable(rows: seq<Row>): (html: string)
    ensures TableOpen + HeaderRow <= html
    ensures |html| >= |TableOpen + HeaderRow| + |TableClose|
    ensures html[|html| - |TableClose|..] == TableClose
  {
    Associative(TableOpen, HeaderRow, RowsHtml(rows) + TableClose);
    SplitSuffix(TableOpen + HeaderRow + RowsHtml(rows), TableClose);
    Associative(TableOpen + HeaderRow, RowsHtml(rows), TableClose);
    TableOpen + (HeaderRow + (RowsHtml(rows) + TableClose))
  }

  /** Cell text that contains no markup, so it cannot be mistaken for a tag. */
  predicate PlainText(s: string) {
    '<' !in s
  }

  predicate PlainRow(r: Row) {
    PlainText(r.domain) && PlainText(r.endTime) && PlainText(r.countdown)
  }

  predicate NotTagStart(c: char) {
    c != '<'
  }

  /** The text of one cell and what follows it. */
  function CellText(s: string): (r: (string, string))
    ensures s == r.0 + r.1 && PlainText(r.0)
  {
    var n := Span(s, NotTagStart);
    (s[..n], s[n..])
  }

  /** Reads one data row off the front of `s`. */
  function DecodeRow(s: string): (r: Option<(Row, string)>)
    ensures r.Some? ==> |r.value.1| < |s|
  {
    var a :- StripPrefix(s, RowOpen);
    var domain := CellText(a);
    var b :- StripPrefix(domain.1, CellBreak);
    var endTime := CellText(b);
    var c :- StripPrefix(endTime.1, CellBreak);
    var countdown := CellText(c);
    var d :- StripPrefix(countdown.1, RowClose);
    Some((Row(domain.0, endTime.0, countdown.0), d))
  }

  /** Reads the data rows back out of the body of a table. */
  function DecodeRows(s: string): Option<seq<Row>>
    decreases |s|
  {
    if |s| == 0 then Some([])
    else
      var first :- DecodeRow(s);
      var rest :- DecodeRows(first.1);
      Some([first.0] + rest)
  }

  /** Reads the rows back out of a whole table. */
  function DecodeTable(html: string): Option<seq<Row>> {
    var body :- StripPrefix(html, TableOpen + HeaderRow);
    if |body| >= |TableClose| && body[|body| - |TableClose|..] == TableClose then
      DecodeRows(body[..|body| - |TableClose|])
    else None
  }

  lemma StripPrefixOf(p: string, s: string)
    ensures StripPrefix(p + s, p) == Some(s)
  {
    assert (p + s)[|p|..] == s;
  }

  lemma CellTextOf(cell: string, rest: string)
    requires PlainText(cell) && |rest| > 0 && rest[0] == '<'
    ensures CellText(cell + rest) == (cell, rest)
  {
    SpanOf(cell, rest, NotTagStart);
    assert (cell + rest)[..|cell|] == cell;
    assert (cell + rest)[|cell|..] == rest;
  }

  /** Stripping a tag and then reading the cell text that follows it. */
  lemma TagThenCell(tag: string, cell: string, rest: string)
    requires PlainText(cell) && |rest| > 0 && rest[0] == '<'
    ensures StripPrefix(tag + (cell + rest), tag) == Some(cell + rest)
    ensures CellText(cell + rest) == (cell, rest)
  {
    StripPrefixOf(tag, cell + rest);
    CellTextOf(cell, rest);
  }

  lemma StartsWithTag(tag: string, s: string)
    requires |tag| > 0 && tag[0] == '<'
    ensures |tag + s| > 0 && (tag + s)[0] == '<'
  {
  }

  lemma RowDecodes(r: Row, more: string)
    requires PlainRow(r)
    ensures DecodeRow(RowHtml(r) + more) == Some((r, more))
  {
    var e := RowClose + more;
    var c := CellBreak + (r.countdown + e);
    var a := CellBreak + (r.endTime + c);
    assert RowHtml(r) + more == RowOpen + (r.domain + a);
    StartsWithTag(CellBreak, r.endTime + c);
    StartsWithTag(CellBreak, r.countdown + e);
    StartsWithTag(RowClose, more);
    TagThenCell(RowOpen, r.domain, a);
    TagThenCell(CellBreak, r.endTime, c);
    TagThenCell(CellBreak, r.countdown, e);
    StripPrefixOf(RowClose, more);
  }

  /** Every data row comes back out of the row markup, in order, as long as
      no cell contains markup. */
  lemma {:induction false} RowsRoundTrip(rows: seq<Row>)
    requires forall i :: 0 <= i < |rows| ==> PlainRow(rows[i])
    ensures DecodeRows(RowsHtml(rows)) == Some(rows)
  {
    if |rows| > 0 {
      var tail := rows[1..];
      forall i | 0 <= i < |tail|
        ensures PlainRow(tail[i])
      {
        assert tail[i] == rows[i + 1];
      }
      RowsRoundTrip(tail);
      PrependRow(rows[0], tail);
      assert RowsHtml(rows) == RowHtml(rows[0]) + RowsHtml(tail);
      assert [rows[0]] + tail == rows;
    }
  }

  /** A plain row in front of rows that read back is read back in front of them. */
  lemma PrependRow(r: Row, rest: seq<Row>)
    requires PlainRow(r) && DecodeRows(RowsHtml(rest)) == Some(rest)
    ensures DecodeRows(RowHtml(r) + RowsHtml(rest)) == Some([r] + rest)
  {
    var more := RowsHtml(rest);
    RowDecodes(r, more);
    assert |RowHtml(r) + more| > 0 by {
      StartsWithTag(RowOpen, r.domain);
    }
    DecodeRowsStep(RowHtml(r) + more, r, more, rest);
  }

  lemma DecodeRowsStep(s: string, r: Row, more: string, rest: seq<Row>)
    requires |s| > 0 && DecodeRow(s) == Some((r, more)) && DecodeRows(more) == Some(rest)
    ensures DecodeRows(s) == Some([r] + rest)
  {
  }

  /** The table holds exactly the given rows, one `<tr>` each, in the given
      order and with each cell text verbatim: reading it back gives the
      rows, as long as no cell contains markup. */
  lemma TableRoundTrip(rows: seq<Row>)
    requires forall i :: 0 <= i < |rows| ==> PlainRow(rows[i])
    ensures DecodeTable(GenerateHtmlTable(rows)) == Some(rows)
  {
    var body := RowsHtml(rows) + TableClose;
    Associative(TableOpen, HeaderRow, body);
    StripPrefixOf(TableOpen + HeaderRow, body);
    SplitSuffix(RowsHtml(rows), TableClose);
    RowsRoundTrip(rows);
  }

  lemma SplitSuffix(x: string, t: string)
    ensures |x + t| >= |t|
    ensures (x + t)[|x + t| - |t|..] == t && (x + t)[..|x + t| - |t|] == x
  {
  }

  /** Cell text is not escaped: one row whose countdown cell carries row
      markup renders exactly like two separate rows. */
  lemma MarkupInCellsIsNotEscaped(a: string, b: string, c: string, d: string, e: string, f: string)
    ensures var two := [Row(a, b, c), Row(d, e, f)];
            var one := [Row(a, b, c + RowClose + RowHtmlPrefix(d, e) + f)];
            GenerateHtmlTable(one) == GenerateHtmlTable(two)
  {
    var two := [Row(a, b, c), Row(d, e, f)];
    var one := [Row(a, b, c + RowClose + RowHtmlPrefix(d, e) + f)];
    assert RowsHtml(two) == RowHtml(two[0]) + RowHtml(two[1]) by {
      assert two[1..] == [Row(d, e, f)] && two[1..][1..] == [];
      assert RowsHtml(two[1..]) == RowHtml(two[1]) + "";
      assert RowHtml(two[1]) + "" == RowHtml(two[1]);
    }
    assert RowsHtml(one) == RowHtml(one[0]) by {
      assert one[1..] == [];
      assert RowHtml(one[0]) + "" == RowHtml(one[0]);
    }
    Regroup(RowOpen, CellBreak, RowClose, a, b, c, d, e, f);
  }

  /** The markup of a row up to its last cell's text. */
  function RowHtmlPrefix(domain: string, endTime: string): string {
    RowOpen + domain + CellBreak + endTime + CellBreak
  }

  /** Two rows of the shape `open a sep b sep c close` side by side are one
      such row whose last cell holds the rest. */
  lemma Regroup(open: string, sep: string, close: string, a: string, b: string, c: string, d: string, e: string, f: string)
    ensures (open + (a + (sep + (b + (sep + (c + close)))))) + (open + (d + (sep + (e + (sep + (f + close))))))
         == open + (a + (sep + (b + (sep + ((c + close + (open + d + sep + e + sep) + f) + close)))))
  {
  }
}
