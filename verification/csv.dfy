/** The CSV text the kiosk exports: every cell wrapped in double quotes with
    inner double quotes doubled, cells joined by commas, rows by line feeds.
    `ParseRows` reads that text back; `ParseEncode` proves it recovers the
    rows, so the quoting loses nothing whatever the names contain. */
module Csv {
  import opened Outcomes

  const QuoteChar: char := '"'

  /** `String(c).replaceAll('"', '""')`. */
  function Escape(c: string): string
    decreases |c|
  {
    if |c| == 0 then ""
    else (if c[0] == QuoteChar then [QuoteChar, QuoteChar] else [c[0]]) + Escape(c[1..])
  }

  /** Escaping doubles every double quote and nothing else: the text grows
      by one character per quote, and text without quotes is written as it
      is. */
  lemma {:induction false} EscapeShape(c: string)
    ensures |Escape(c)| == |c| + multiset(c)[QuoteChar]
    ensures QuoteChar !in c ==> Escape(c) == c
    decreases |c|
  {
    if |c| > 0 {
      EscapeShape(c[1..]);
      assert c == [c[0]] + c[1..];
    }
  }

  /** A cell as written to the file. */
  function Quote(c: string): string {
    [QuoteChar] + Escape(c) + [QuoteChar]
  }

  /** The quoted cells of a row joined by commas (`r.map(...).join(",")`). */
  function Row(cells: seq<string>): string
    decreases |cells|
  {
    if |cells| == 0 then ""
    else if |cells| == 1 then Quote(cells[0])
    else Quote(cells[0]) + "," + Row(cells[1..])
  }

  /** The rows joined by line feeds (`rows.map(...).join("\n")`). */
  function Encode(rows: seq<seq<string>>): string
    decreases |rows|
  {
    if |rows| == 0 then ""
    else if |rows| == 1 then Row(rows[0])
    else Row(rows[0]) + "\n" + Encode(rows[1..])
  }

  /** Reads a cell's body up to its closing quote, turning each doubled quote
      back into one; yields the cell and what follows the closing quote. */
  function Unescape(s: string): (r: Option<(string, string)>)
    ensures r.Some? ==> |r.value.1| < |s|
    decreases |s|
  {
    if |s| == 0 then None
    else if s[0] == QuoteChar then
      if |s| >= 2 && s[1] == QuoteChar then
        match Unescape(s[2..])
        case None => None
        case Some(p) => Some(([QuoteChar] + p.0, p.1))
      else Some(("", s[1..]))
    else
      match Unescape(s[1..])
      case None => None
      case Some(p) => Some(([s[0]] + p.0, p.1))
  }

  /** Reads the quoted cells of one row; yields them and the text after the
      row's last cell. */
  function ParseCells(s: string): (r: Option<(seq<string>, string)>)
    ensures r.Some? ==> |r.value.1| < |s|
    decreases |s|
  {
    if |s| == 0 || s[0] != QuoteChar then None
    else
      match Unescape(s[1..])
      case None => None
      case Some(p) =>
        var cell, rest := p.0, p.1;
        if |rest| > 0 && rest[0] == ',' then
          match ParseCells(rest[1..])
          case None => None
          case Some(q) => Some(([cell] + q.0, q.1))
        else Some(([cell], rest))
  }

  /** Reads a whole file: rows of cells separated by line feeds. */
  function ParseRows(s: string): (r: Option<seq<seq<string>>>)
    decreases |s|
  {
    match ParseCells(s)
    case None => None
    case Some(p) =>
      var cells, rest := p.0, p.1;
      if |rest| == 0 then Some([cells])
      else if rest[0] == '\n' then
        match ParseRows(rest[1..])
        case None => None
        case Some(more) => Some([cells] + more)
      else None
  }

  /** A quoted cell's body reads back as the cell, stopping at its closing
      quote. */
  lemma {:induction false} UnescapeEscape(c: string, tail: string)
    requires |tail| == 0 || tail[0] != QuoteChar
    ensures Unescape(Escape(c) + [QuoteChar] + tail) == Some((c, tail))
    decreases |c|
  {
    if |c| == 0 {
      assert Escape(c) + [QuoteChar] + tail == [QuoteChar] + tail;
    } else {
      UnescapeEscape(c[1..], tail);
      UnescapeEscapeStep(c, tail);
    }
  }

  /** One step of `UnescapeEscape`: the cell's first character. */
  lemma UnescapeEscapeStep(c: string, tail: string)
    requires |c| > 0
    requires Unescape(Escape(c[1..]) + [QuoteChar] + tail) == Some((c[1..], tail))
    ensures Unescape(Escape(c) + [QuoteChar] + tail) == Some((c, tail))
  {
    var more := Escape(c[1..]) + [QuoteChar] + tail;
    if c[0] == QuoteChar {
      assert Escape(c) + [QuoteChar] + tail == [QuoteChar, QuoteChar] + more;
      UnescapeDoubled(more);
    } else {
      assert Escape(c) + [QuoteChar] + tail == [c[0]] + more;
      UnescapePlain(c[0], more);
    }
    assert c == [c[0]] + c[1..];
  }

  /** A doubled quote reads as one quote of the cell. */
  lemma UnescapeDoubled(more: string)
    ensures Unescape([QuoteChar, QuoteChar] + more)
            == match Unescape(more)
               case None => None
               case Some(p) => Some(([QuoteChar] + p.0, p.1))
  {
    assert ([QuoteChar, QuoteChar] + more)[2..] == more;
  }

  /** Any other character reads as itself. */
  lemma UnescapePlain(x: char, more: string)
    requires x != QuoteChar
    ensures Unescape([x] + more)
            == match Unescape(more)
               case None => None
               case Some(p) => Some(([x] + p.0, p.1))
  {
    assert ([x] + more)[1..] == more;
  }

  /** The last cell of a row reads back, stopping where the row ends. */
  lemma ParseLastCell(c: string, tail: string)
    requires |tail| == 0 || tail[0] == '\n'
    ensures ParseCells(Quote(c) + tail) == Some(([c], tail))
  {
    var body := Escape(c) + [QuoteChar] + tail;
    UnescapeEscape(c, tail);
    assert Quote(c) + tail == [QuoteChar] + body;
    CellThenEnd(body, c, tail);
  }

  /** A cell followed by a comma reads back, and so does the rest of the
      row after it. */
  lemma ParseNextCell(c: string, more: string, cells: seq<string>, tail: string)
    requires ParseCells(more) == Some((cells, tail))
    ensures ParseCells(Quote(c) + ([','] + more)) == Some(([c] + cells, tail))
  {
    var body := Escape(c) + [QuoteChar] + ([','] + more);
    UnescapeEscape(c, [','] + more);
    assert Quote(c) + ([','] + more) == [QuoteChar] + body;
    CellThenComma(body, c, more, cells, tail);
  }

  /** A cell whose body is not followed by a comma ends the row. */
  lemma CellThenEnd(body: string, c: string, rest: string)
    requires Unescape(body) == Some((c, rest))
    requires |rest| == 0 || rest[0] != ','
    ensures ParseCells([QuoteChar] + body) == Some(([c], rest))
  {
    assert ([QuoteChar] + body)[1..] == body;
  }

  /** A cell whose body is followed by a comma is followed by more cells. */
  lemma CellThenComma(body: string, c: string, more: string, cells: seq<string>, tail: string)
    requires Unescape(body) == Some((c, [','] + more))
    requires ParseCells(more) == Some((cells, tail))
    ensures ParseCells([QuoteChar] + body) == Some(([c] + cells, tail))
  {
    assert ([QuoteChar] + body)[1..] == body;
    assert ([','] + more)[1..] == more;
  }

  /** A row's text reads back as its cells, stopping at the row's end. */
  lemma {:induction false} ParseRow(cells: seq<string>, tail: string)
    requires |cells| > 0
    requires |tail| == 0 || tail[0] == '\n'
    ensures ParseCells(Row(cells) + tail) == Some((cells, tail))
    decreases |cells|
  {
    var c := cells[0];
    if |cells| == 1 {
      ParseLastCell(c, tail);
      assert Row(cells) == Quote(c);
      assert [c] == cells;
    } else {
      ParseRow(cells[1..], tail);
      var more := Row(cells[1..]) + tail;
      ParseNextCell(c, more, cells[1..], tail);
      RowSplit(cells, tail);
      assert cells == [c] + cells[1..];
    }
  }

  /** The first cell, a comma, then the text of the other cells. */
  lemma RowSplit(cells: seq<string>, tail: string)
    requires |cells| > 1
    ensures Row(cells) + tail == Quote(cells[0]) + ([','] + (Row(cells[1..]) + tail))
  {
  }

  /** A row ended by a line feed is followed by the remaining rows. */
  lemma ParseRowsStep(s: string, cells: seq<string>, rest: string, more: seq<seq<string>>)
    requires ParseCells(s) == Some((cells, rest))
    requires |rest| > 0 && rest[0] == '\n'
    requires ParseRows(rest[1..]) == Some(more)
    ensures ParseRows(s) == Some([cells] + more)
  {
  }

  /** No row is empty, so every row leaves a mark in the text. */
  predicate AllRowsFilled(rows: seq<seq<string>>) {
    forall i :: 0 <= i < |rows| ==> |rows[i]| > 0
  }

  /** The encoded text of a non-empty table of non-empty rows reads back as
      the table. */
  lemma {:induction false} ParseEncode(rows: seq<seq<string>>)
    requires |rows| > 0
    requires AllRowsFilled(rows)
    ensures ParseRows(Encode(rows)) == Some(rows)
    decreases |rows|
  {
    if |rows| == 1 {
      ParseRow(rows[0], "");
      assert Encode(rows) == Row(rows[0]) + "";
      assert rows == [rows[0]];
    } else {
      ParseEncode(rows[1..]);
      ParseEncodeStep(rows);
    }
  }

  /** One step of `ParseEncode`: the first row and its line feed. */
  lemma ParseEncodeStep(rows: seq<seq<string>>)
    requires |rows| > 1 && |rows[0]| > 0
    requires ParseRows(Encode(rows[1..])) == Some(rows[1..])
    ensures ParseRows(Encode(rows)) == Some(rows)
  {
    var tail := "\n" + Encode(rows[1..]);
    EncodeSplit(rows);
    ParseRow(rows[0], tail);
    ParseRowsStep(Encode(rows), rows[0], tail, rows[1..]);
    assert rows == [rows[0]] + rows[1..];
  }

  /** The first row, a line feed, then the text of the other rows. */
  lemma EncodeSplit(rows: seq<seq<string>>)
    requires |rows| > 1
    ensures Encode(rows) == Row(rows[0]) + ("\n" + Encode(rows[1..]))
    ensures ("\n" + Encode(rows[1..]))[1..] == Encode(rows[1..])
  {
  }

  /** Encoding is injective on the tables the export writes. */
  lemma EncodeInjective(a: seq<seq<string>>, b: seq<seq<string>>)
    requires |a| > 0 && |b| > 0
    requires AllRowsFilled(a) && AllRowsFilled(b)
    requires Encode(a) == Encode(b)
    ensures a == b
  {
    ParseEncode(a);
    ParseEncode(b);
  }
}
