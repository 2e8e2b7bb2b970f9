/** The cell quoting of the weekly export (src/App.js:1330-1332): every cell
    is written between double quotes with each embedded double quote
    doubled, cells are joined by commas and rows by line feeds.  The decoder
    here is the partner that shows the quoting loses nothing. */
module Csv {
  import opened Wrappers
  import opened Text

  /** How many double quotes a cell holds. */
  function QuoteCount(c: string): nat {
    if |c| == 0 then 0 else (if c[0] == '"' then 1 else 0) + QuoteCount(c[1..])
  }

  /** `String(v).replace(/"/g, '""')`: one extra character per double quote. */
  function Escape(c: string): (r: string)
    ensures |r| == |c| + QuoteCount(c)
  {
    if |c| == 0 then ""
    else (if c[0] == '"' then "\"\"" else [c[0]]) + Escape(c[1..])
  }

  /** One encoded cell. */
  function QuoteCell(c: string): (r: string)
    ensures |r| >= 2 && r[0] == '"' && r[|r| - 1] == '"'
  {
    "\"" + Escape(c) + "\""
  }

  /** `r.map(quote).join(",")`. */
  function EncodeRow(row: seq<string>): string {
    if |row| == 0 then ""
    else if |row| == 1 then QuoteCell(row[0])
    else QuoteCell(row[0]) + "," + EncodeRow(row[1..])
  }

  /** `rows.map(encodeRow).join("\n")`. */
  function EncodeCsv(rows: seq<seq<string>>): string {
    if |rows| == 0 then ""
    else if |rows| == 1 then EncodeRow(rows[0])
    else EncodeRow(rows[0]) + "\n" + EncodeCsv(rows[1..])
  }

  /** Reads the inside of a quoted cell, the opening quote already consumed:
      `""` stands for one quote and a lone `"` closes the cell.  Returns the
      cell and what follows the closing quote. */
  function ReadQuoted(s: string): (r: Option<(string, string)>)
    ensures r.Some? ==> |r.value.1| < |s|
  {
    if |s| == 0 then None
    else if s[0] == '"' then
      if |s| >= 2 && s[1] == '"' then
        match ReadQuoted(s[2..])
        case None => None
        case Some((c, rest)) => Some(("\"" + c, rest))
      else Some(("", s[1..]))
    else
      match ReadQuoted(s[1..])
      case None => None
      case Some((c, rest)) => Some(([s[0]] + c, rest))
  }

  /** Reads a whole export back into rows of cells: a quoted cell, then a
      comma (same row), a line feed (next row) or the end. */
  function DecodeCsv(s: string): (r: Option<seq<seq<string>>>)
    ensures r.Some? ==> |r.value| >= 1 && forall k :: 0 <= k < |r.value| ==> |r.value[k]| >= 1
    decreases |s|
  {
    if |s| == 0 || s[0] != '"' then None
    else
      match ReadQuoted(s[1..])
      case None => None
      case Some((cell, rest)) =>
        if rest == [] then Some([[cell]])
        else if rest[0] == ',' then
          match DecodeCsv(rest[1..])
          case None => None
          case Some(rows) => Some([[cell] + rows[0]] + rows[1..])
        else if rest[0] == '\n' then
          match DecodeCsv(rest[1..])
          case None => None
          case Some(rows) => Some([[cell]] + rows)
        else None
  }

  /** Un-doubling the quotes of an escaped cell, up to the closing quote,
      gives the cell back and leaves what follows untouched. */
  lemma {:induction false} ReadEscaped(c: string, rest: string)
    requires rest == [] || rest[0] != '"'
    ensures ReadQuoted(Escape(c) + "\"" + rest) == Some((c, rest))
  {
    if |c| > 0 {
      var s := Escape(c) + "\"" + rest;
      ReadEscaped(c[1..], rest);
      if c[0] == '"' {
        assert s == "\"\"" + (Escape(c[1..]) + "\"" + rest);
        assert s[2..] == Escape(c[1..]) + "\"" + rest;
        assert c == "\"" + c[1..];
      } else {
        assert s == [c[0]] + (Escape(c[1..]) + "\"" + rest);
        assert s[1..] == Escape(c[1..]) + "\"" + rest;
        assert c == [c[0]] + c[1..];
      }
    } else {
      assert Escape(c) + "\"" + rest == "\"" + rest;
    }
  }

  /** One quoted cell read back from the front of a longer text. */
  lemma {:induction false} ReadCell(c: string, tail: string)
    requires tail == [] || tail[0] != '"'
    ensures (QuoteCell(c) + tail)[0] == '"'
    ensures ReadQuoted((QuoteCell(c) + tail)[1..]) == Some((c, tail))
  {
    assert (QuoteCell(c) + tail)[1..] == Escape(c) + "\"" + tail;
    ReadEscaped(c, tail);
  }

  /** A quoted cell at the very end of the text is a last row of one cell. */
  lemma DecodeCellEnd(c: string)
    ensures DecodeCsv(QuoteCell(c)) == Some([[c]])
  {
    ReadCell(c, []);
    assert QuoteCell(c) + [] == QuoteCell(c);
  }

  /** A quoted cell and a comma put the cell in front of the first row that follows. */
  lemma DecodeCellComma(c: string, t: string)
    ensures DecodeCsv(QuoteCell(c) + "," + t)
         == if DecodeCsv(t).None? then None else Some([[c] + DecodeCsv(t).value[0]] + DecodeCsv(t).value[1..])
  {
    ReadCell(c, "," + t);
    assert QuoteCell(c) + "," + t == QuoteCell(c) + ("," + t);
    assert ("," + t)[1..] == t;
  }

  /** A quoted cell and a line feed close a row of one cell. */
  lemma DecodeCellLine(c: string, t: string)
    ensures DecodeCsv(QuoteCell(c) + "\n" + t)
         == if DecodeCsv(t).None? then None else Some([[c]] + DecodeCsv(t).value)
  {
    ReadCell(c, "\n" + t);
    assert QuoteCell(c) + "\n" + t == QuoteCell(c) + ("\n" + t);
    assert ("\n" + t)[1..] == t;
  }

  /** An encoded row followed by the end of the text or by a line feed and
      more rows decodes as that row in front of whatever follows. */
  lemma {:induction false} DecodeRowThen(row: seq<string>, tail: string)
    requires |row| >= 1
    requires tail == [] || tail[0] == '\n'
    ensures tail == [] ==> DecodeCsv(EncodeRow(row) + tail) == Some([row])
    ensures tail != [] && DecodeCsv(tail[1..]).Some? ==>
              DecodeCsv(EncodeRow(row) + tail) == Some([row] + DecodeCsv(tail[1..]).value)
  {
    if |row| == 1 {
      DecodeOneCellRowThen(row, tail);
    } else {
      DecodeRowThen(row[1..], tail);
      if tail == [] {
        assert [row[1..]] + [] == [row[1..]];
        DecodeLongerRow(row, tail, []);
        assert [row] + [] == [row];
      } else if DecodeCsv(tail[1..]).Some? {
        DecodeLongerRow(row, tail, DecodeCsv(tail[1..]).value);
      }
    }
  }

  /** The base case of DecodeRowThen: a row of one cell. */
  lemma DecodeOneCellRowThen(row: seq<string>, tail: string)
    requires |row| == 1
    requires tail == [] || tail[0] == '\n'
    ensures tail == [] ==> DecodeCsv(EncodeRow(row) + tail) == Some([row])
    ensures tail != [] ==>
              DecodeCsv(EncodeRow(row) + tail)
                == if DecodeCsv(tail[1..]).None? then None else Some([row] + DecodeCsv(tail[1..]).value)
  {
    assert row == [row[0]];
    assert EncodeRow(row) == QuoteCell(row[0]);
    if tail == [] {
      assert EncodeRow(row) + tail == QuoteCell(row[0]);
      DecodeCellEnd(row[0]);
    } else {
      assert EncodeRow(row) + tail == QuoteCell(row[0]) + "\n" + tail[1..];
      DecodeCellLine(row[0], tail[1..]);
    }
  }

  /** The step of DecodeRowThen: the first cell and its comma go in front of
      the decoded rest of the row. */
  lemma DecodeLongerRow(row: seq<string>, tail: string, after: seq<seq<string>>)
    requires |row| >= 2
    requires DecodeCsv(EncodeRow(row[1..]) + tail) == Some([row[1..]] + after)
    ensures DecodeCsv(EncodeRow(row) + tail) == Some([row] + after)
  {
    var more := EncodeRow(row[1..]) + tail;
    assert EncodeRow(row) + tail == QuoteCell(row[0]) + "," + more;
    DecodeCellComma(row[0], more);
    ConsCell(row, after);
  }

  /** Putting the first cell back in front of the rest of its row. */
  lemma ConsCell(row: seq<string>, after: seq<seq<string>>)
    requires |row| >= 1
    ensures var rest := [row[1..]] + after;
            [[row[0]] + rest[0]] + rest[1..] == [row] + after
  {
    assert [row[0]] + row[1..] == row;
    assert ([row[1..]] + after)[1..] == after;
  }

  /** The round trip: every list of non-empty rows survives encoding and
      decoding; the export always has this shape, its first row being the
      five-cell header. */
  lemma {:induction false} DecodeEncode(rows: seq<seq<string>>)
    requires |rows| >= 1
    requires forall k :: 0 <= k < |rows| ==> |rows[k]| >= 1
    ensures DecodeCsv(EncodeCsv(rows)) == Some(rows)
  {
    if |rows| == 1 {
      DecodeRowThen(rows[0], []);
      assert EncodeRow(rows[0]) + [] == EncodeRow(rows[0]);
      assert rows == [rows[0]];
    } else {
      var tail := "\n" + EncodeCsv(rows[1..]);
      DecodeEncode(rows[1..]);
      assert tail[1..] == EncodeCsv(rows[1..]);
      DecodeRowThen(rows[0], tail);
      assert EncodeCsv(rows) == EncodeRow(rows[0]) + tail;
      assert [rows[0]] + rows[1..] == rows;
    }
  }

  /** Distinct row lists give distinct exports. */
  lemma EncodeCsvInjective(a: seq<seq<string>>, b: seq<seq<string>>)
    requires |a| >= 1 && forall k :: 0 <= k < |a| ==> |a[k]| >= 1
    requires |b| >= 1 && forall k :: 0 <= k < |b| ==> |b[k]| >= 1
    requires EncodeCsv(a) == EncodeCsv(b)
    ensures a == b
  {
    DecodeEncode(a);
    DecodeEncode(b);
  }
}
