/** The CSV export shared by the two exporting tables: each cell is wrapped in
    double quotes with every inner double quote doubled (section 2, rules 5
    to 7, of RFC 4180), cells are joined by "," and lines by a line feed.
    A reader for such documents is given so that the export can be proved to
    read back to the values it was built from. The reader is quote-aware: a
    line feed inside a quoted cell belongs to the cell (rule 6). */
module Csv {
  import opened Wrappers
  import opened Seqs

  /** `v.replace(/"/g, '""')`: every double quote doubled. */
  function Escape(v: string): (r: string)
    ensures |r| >= |v|
    ensures '\n' !in v ==> '\n' !in r
  {
    if v == [] then [] else (if v[0] == '"' then "\"\"" else [v[0]]) + Escape(v[1..])
  }

  /** A cell in quotes with its inner quotes doubled: `"${v.replace(/"/g, '""')}"`. */
  function QuoteCell(v: string): (r: string)
    ensures |r| >= 2 && r[0] == '"' && r[|r| - 1] == '"'
    ensures '\n' !in v ==> '\n' !in r
  {
    "\"" + Escape(v) + "\""
  }

  /** A cell put in quotes as it is, without doubling: `"${v}"`. */
  function WrapCell(v: string): (r: string)
    ensures |r| == |v| + 2
    ensures '\n' !in v ==> '\n' !in r
  {
    "\"" + v + "\""
  }

  /** Cells joined by commas into one line. */
  function Line(cells: seq<string>): string {
    Join(cells, ",")
  }

  /** The cells of one line, each quoted with doubling. */
  function QuoteAll(vs: seq<string>): (r: seq<string>)
    ensures |r| == |vs|
    ensures forall i :: 0 <= i < |vs| ==> r[i] == QuoteCell(vs[i])
  {
    seq(|vs|, i requires 0 <= i < |vs| => QuoteCell(vs[i]))
  }

  /** Lines joined by line feeds: `[header, ...rows].join("\n")`. */
  function Document(header: string, rows: seq<string>): string {
    Join([header] + rows, "\n")
  }

  /** Read the contents of one quoted field, starting just after its opening
      quote: a doubled quote stands for one quote and a single quote closes the
      field. Gives the value and the text after the closing quote, or nothing
      when the field is never closed. */
  function ReadQuoted(s: string): (r: Option<(string, string)>)
    ensures r.Some? ==> |r.value.1| < |s|
  {
    if s == [] then None
    else if s[0] == '"' then
      if |s| >= 2 && s[1] == '"' then
        match ReadQuoted(s[2..])
        case None => None
        case Some(p) => Some(("\"" + p.0, p.1))
      else Some(("", s[1..]))
    else
      match ReadQuoted(s[1..])
      case None => None
      case Some(p) => Some(([s[0]] + p.0, p.1))
  }

  /** Read a line of quoted fields separated by commas into their values;
      nothing when the line is not of that form. */
  function ParseLine(s: string): (r: Option<seq<string>>)
    ensures r.Some? ==> |r.value| >= 1
    decreases |s|
  {
    if s == [] || s[0] != '"' then None
    else
      match ReadQuoted(s[1..])
      case None => None
      case Some(p) =>
        var rest := p.1;
        if rest == [] then Some([p.0])
        else if rest[0] != ',' then None
        else
          match ParseLine(rest[1..])
          case None => None
          case Some(vs) => Some([p.0] + vs)
  }

  /** Read records of quoted fields: fields are separated by "," and records
      by a line feed, and a line feed inside a quoted field is part of its
      value. Nothing when the text is not of that form. */
  function ParseRecords(s: string): (r: Option<seq<seq<string>>>)
    ensures r.Some? ==> |r.value| >= 1 && forall i :: 0 <= i < |r.value| ==> |r.value[i]| >= 1
    decreases |s|
  {
    if s == [] || s[0] != '"' then None
    else
      match ReadQuoted(s[1..])
      case None => None
      case Some(p) =>
        var rest := p.1;
        if rest == [] then Some([[p.0]])
        else if rest[0] == ',' then
          match ParseRecords(rest[1..])
          case None => None
          case Some(rs) => Some([[p.0] + rs[0]] + rs[1..])
        else if rest[0] == '\n' then
          match ParseRecords(rest[1..])
          case None => None
          case Some(rs) => Some([[p.0]] + rs)
        else None
  }

  /** Read a document: an unquoted header line up to the first line feed,
      then records of quoted fields. A document without a line feed is a
      header with no records. */
  function ParseDocument(s: string): (r: Option<(string, seq<seq<string>>)>)
    ensures r.Some? ==> '\n' !in r.value.0
  {
    if s == [] then Some(([], []))
    else if s[0] == '\n' then
      match ParseRecords(s[1..])
      case None => None
      case Some(rs) => Some(([], rs))
    else
      match ParseDocument(s[1..])
      case None => None
      case Some(p) => Some(([s[0]] + p.0, p.1))
  }

  /** A doubled quote in front of a field reads as one quote of its value. */
  lemma ReadDoubledQuote(t: string)
    ensures ReadQuoted("\"\"" + t) ==
      match ReadQuoted(t)
      case None => None
      case Some(p) => Some(("\"" + p.0, p.1))
  {
    assert ("\"\"" + t)[2..] == t;
  }

  /** Any other character in front of a field reads as itself. */
  lemma ReadPlainChar(c: char, t: string)
    requires c != '"'
    ensures ReadQuoted([c] + t) ==
      match ReadQuoted(t)
      case None => None
      case Some(p) => Some(([c] + p.0, p.1))
  {
    assert ([c] + t)[1..] == t;
  }

  /** One step of reading an escaped value that starts with a quote: the
      doubled quote is read back as one. */
  lemma ReadEscapedQuote(v: string, rest: string)
    requires v != [] && v[0] == '"'
    requires ReadQuoted(Escape(v[1..]) + "\"" + rest) == Some((v[1..], rest))
    ensures ReadQuoted(Escape(v) + "\"" + rest) == Some((v, rest))
  {
    var t := Escape(v[1..]) + "\"" + rest;
    assert Escape(v) == "\"\"" + Escape(v[1..]);
    assert Escape(v) + "\"" + rest == "\"\"" + t;
    ReadDoubledQuote(t);
    assert "\"" + v[1..] == v;
  }

  /** One step of reading an escaped value that starts with any other
      character: the character is read back as itself. */
  lemma ReadEscapedPlain(v: string, rest: string)
    requires v != [] && v[0] != '"'
    requires ReadQuoted(Escape(v[1..]) + "\"" + rest) == Some((v[1..], rest))
    ensures ReadQuoted(Escape(v) + "\"" + rest) == Some((v, rest))
  {
    var t := Escape(v[1..]) + "\"" + rest;
    assert Escape(v) == [v[0]] + Escape(v[1..]);
    assert Escape(v) + "\"" + rest == [v[0]] + t;
    ReadPlainChar(v[0], t);
    assert [v[0]] + v[1..] == v;
  }

  /** The quote that ends an escaped value ends the field, whatever follows
      unless it is another quote. */
  lemma {:induction false} ReadEscaped(v: string, rest: string)
    requires rest == [] || rest[0] != '"'
    ensures ReadQuoted(Escape(v) + "\"" + rest) == Some((v, rest))
  {
    if v == [] {
      var s := "\"" + rest;
      assert Escape(v) + "\"" + rest == s;
      assert s[1..] == rest;
    } else {
      ReadEscaped(v[1..], rest);
      if v[0] == '"' {
        ReadEscapedQuote(v, rest);
      } else {
        ReadEscapedPlain(v, rest);
      }
    }
  }

  /** A single quoted cell reads back to its value. */
  lemma UnquoteCell(v: string)
    ensures ParseLine(QuoteCell(v)) == Some([v])
  {
    ReadEscaped(v, "");
    assert QuoteCell(v)[1..] == Escape(v) + "\"" + "";
  }

  /** A quoted cell followed by a comma is read off the front of a line, and
      the rest of the line is read as it would be on its own. */
  lemma ReadCellThenRest(v: string, tail: string)
    ensures ParseLine(QuoteCell(v) + "," + tail) ==
      match ParseLine(tail)
      case None => None
      case Some(vs) => Some([v] + vs)
  {
    var s := QuoteCell(v) + "," + tail;
    ReadEscaped(v, "," + tail);
    assert s[1..] == Escape(v) + "\"" + ("," + tail);
    assert ("," + tail)[1..] == tail;
  }

  /** A line of quoted cells reads back to the values it was built from: the
      quoting survives any quote or comma inside a value. */
  lemma {:induction false} ParseQuotedLine(vs: seq<string>, cells: seq<string>)
    requires |vs| >= 1 && |cells| == |vs|
    requires forall i :: 0 <= i < |vs| ==> cells[i] == QuoteCell(vs[i])
    ensures ParseLine(Line(cells)) == Some(vs)
  {
    if |vs| == 1 {
      UnquoteCell(vs[0]);
      assert vs == [vs[0]];
    } else {
      ParseQuotedLine(vs[1..], cells[1..]);
      var tail := Line(cells[1..]);
      assert Line(cells) == QuoteCell(vs[0]) + "," + tail;
      ReadCellThenRest(vs[0], tail);
      assert [vs[0]] + vs[1..] == vs;
    }
  }

  /** A quoted cell followed by `sep` is read off the front of the text, and
      the rest is read as it would be on its own: after a comma it continues
      the first record, after a line feed it starts the next one, and with
      nothing after it the cell is the whole document. */
  lemma ReadCellThen(v: string, sep: string, u: string)
    requires sep == "" || sep == "," || sep == "\n"
    requires sep == "" ==> u == ""
    ensures ParseRecords(QuoteCell(v) + sep + u) ==
      if sep == "" then Some([[v]])
      else
        match ParseRecords(u)
        case None => None
        case Some(rs) => if sep == "," then Some([[v] + rs[0]] + rs[1..]) else Some([[v]] + rs)
  {
    var s := QuoteCell(v) + sep + u;
    ReadEscaped(v, sep + u);
    assert s[1..] == Escape(v) + "\"" + (sep + u);
    if sep != "" {
      assert (sep + u)[1..] == u;
    }
  }

  /** A record of quoted cells followed by nothing or by a line feed is read
      whole, whatever quotes, commas or line feeds its values hold; what
      follows the line feed is read as records of its own. */
  lemma {:induction false} ReadRecord(vs: seq<string>, t: string)
    requires |vs| >= 1
    requires t == [] || t[0] == '\n'
    ensures ParseRecords(Line(QuoteAll(vs)) + t) ==
      if t == [] then Some([vs])
      else
        match ParseRecords(t[1..])
        case None => None
        case Some(rs) => Some([vs] + rs)
  {
    var cells := QuoteAll(vs);
    if |vs| == 1 {
      assert Line(cells) == QuoteCell(vs[0]);
      assert vs == [vs[0]];
      if t == [] {
        ReadCellThen(vs[0], "", "");
        assert Line(cells) + t == QuoteCell(vs[0]) + "" + "";
      } else {
        ReadCellThen(vs[0], "\n", t[1..]);
        assert Line(cells) + t == QuoteCell(vs[0]) + "\n" + t[1..];
      }
    } else {
      var tail := Line(cells[1..]);
      assert cells[1..] == QuoteAll(vs[1..]);
      ReadRecord(vs[1..], t);
      assert Line(cells) + t == QuoteCell(vs[0]) + "," + (tail + t);
      ReadCellThen(vs[0], ",", tail + t);
      assert [vs[0]] + vs[1..] == vs;
      if t == [] {
        assert [[vs[0]] + [vs[1..]][0]] + [vs[1..]][1..] == [vs];
      } else if ParseRecords(t[1..]).Some? {
        var rs := ParseRecords(t[1..]).value;
        assert ([vs[1..]] + rs)[0] == vs[1..];
        assert ([vs[1..]] + rs)[1..] == rs;
      }
    }
  }

  /** Records of quoted cells joined by line feeds read back to their values. */
  lemma {:induction false} ParseJoinedRecords(vss: seq<seq<string>>, lines: seq<string>)
    requires |vss| >= 1 && |lines| == |vss|
    requires forall i :: 0 <= i < |vss| ==> |vss[i]| >= 1 && lines[i] == Line(QuoteAll(vss[i]))
    ensures ParseRecords(Join(lines, "\n")) == Some(vss)
  {
    if |vss| == 1 {
      ReadRecord(vss[0], "");
      assert lines[0] + "" == lines[0];
      assert vss == [vss[0]];
    } else {
      ParseJoinedRecords(vss[1..], lines[1..]);
      var tail := Join(lines[1..], "\n");
      ReadRecord(vss[0], "\n" + tail);
      assert Join(lines, "\n") == lines[0] + ("\n" + tail);
      assert ("\n" + tail)[1..] == tail;
      assert [vss[0]] + vss[1..] == vss;
    }
  }

  /** The header is read up to the first line feed. */
  lemma {:induction false} ReadHeader(header: string, t: string)
    requires '\n' !in header
    requires t == [] || t[0] == '\n'
    ensures ParseDocument(header + t) ==
      if t == [] then Some((header, []))
      else
        match ParseRecords(t[1..])
        case None => None
        case Some(rs) => Some((header, rs))
  {
    if header == [] {
      assert header + t == t;
    } else {
      ReadHeader(header[1..], t);
      assert (header + t)[1..] == header[1..] + t;
      assert [header[0]] + header[1..] == header;
    }
  }

  /** A document of a header line and lines of quoted cells reads back to
      the header and the values of every line, in order; values may hold
      quotes, commas and line feeds. */
  lemma DocumentReadsBack(header: string, vss: seq<seq<string>>, lines: seq<string>)
    requires '\n' !in header
    requires |lines| == |vss|
    requires forall i :: 0 <= i < |vss| ==> |vss[i]| >= 1 && lines[i] == Line(QuoteAll(vss[i]))
    ensures ParseDocument(Document(header, lines)) == Some((header, vss))
  {
    if lines == [] {
      assert Document(header, lines) == header + "";
      ReadHeader(header, "");
    } else {
      ParseJoinedRecords(vss, lines);
      var tail := Join(lines, "\n");
      assert ([header] + lines)[1..] == lines;
      assert Document(header, lines) == header + ("\n" + tail);
      ReadHeader(header, "\n" + tail);
      assert ("\n" + tail)[1..] == tail;
    }
  }

  /** Without an inner quote, wrapping and quoting produce the same cell. */
  lemma {:induction false} WrapIsQuoteWithoutQuotes(v: string)
    requires '"' !in v
    ensures WrapCell(v) == QuoteCell(v)
  {
    EscapeWithoutQuotes(v);
  }

  lemma {:induction false} EscapeWithoutQuotes(v: string)
    requires '"' !in v
    ensures Escape(v) == v
  {
    if v != [] {
      EscapeWithoutQuotes(v[1..]);
      assert [v[0]] + v[1..] == v;
    }
  }

  /** The number of double quotes in s. */
  function QuoteCount(s: string): (r: nat)
    ensures r <= |s|
  {
    if s == [] then 0 else (if s[0] == '"' then 1 else 0) + QuoteCount(s[1..])
  }

  lemma {:induction false} QuoteCountZero(s: string)
    ensures QuoteCount(s) == 0 <==> '"' !in s
  {
    if s != [] {
      QuoteCountZero(s[1..]);
      assert s == [s[0]] + s[1..];
    }
  }

  /** Doubling adds one character per quote. */
  lemma {:induction false} EscapeLength(v: string)
    ensures |Escape(v)| == |v| + QuoteCount(v)
  {
    if v != [] {
      EscapeLength(v[1..]);
    }
  }

  /** Wrapping without doubling is correct escaping exactly when the value
      holds no quote. */
  lemma WrapIsQuoteIff(v: string)
    ensures WrapCell(v) == QuoteCell(v) <==> '"' !in v
  {
    EscapeLength(v);
    QuoteCountZero(v);
    if '"' !in v {
      WrapIsQuoteWithoutQuotes(v);
    }
  }

  /** Reading a quoted field uses up one character per character of the
      value, one more per quote in the value, and the closing quote. */
  lemma {:induction false} ReadQuotedLength(s: string)
    requires ReadQuoted(s).Some?
    ensures var p := ReadQuoted(s).value; |s| == |p.0| + QuoteCount(p.0) + 1 + |p.1|
  {
    if s[0] == '"' {
      if |s| >= 2 && s[1] == '"' {
        ReadQuotedLength(s[2..]);
        var p := ReadQuoted(s[2..]).value;
        assert ("\"" + p.0)[1..] == p.0;
      }
    } else {
      ReadQuotedLength(s[1..]);
      var p := ReadQuoted(s[1..]).value;
      assert ([s[0]] + p.0)[1..] == p.0;
    }
  }

  /** No value with a quote inside reads back from its cell when it is
      wrapped without doubling: the reader would need one more character per
      quote than the cell holds. */
  lemma WrappedQuoteNeverReadsBack(v: string)
    requires '"' in v
    ensures ParseLine(WrapCell(v)) != Some([v])
  {
    var s := WrapCell(v);
    assert s[1..] == v + "\"";
    QuoteCountZero(v);
    if ReadQuoted(s[1..]).Some? {
      ReadQuotedLength(s[1..]);
    }
  }

  /** An instance of the above: `"a"b"` closes after `a` and leaves `b"`
      behind, so the line is not a line of cells at all. */
  lemma WrappedQuoteDoesNotReadBack()
    ensures ParseLine(WrapCell("a\"b")) == None
  {
    var s := WrapCell("a\"b");
    assert s == "\"a\"b\"";
    assert s[1..] == "a\"b\"";
    assert s[1..][1..] == "\"b\"";
    assert ReadQuoted("\"b\"") == Some(("", "b\""));
    assert ['a'] + "" == "a";
    assert ReadQuoted(s[1..]) == Some(("a", "b\""));
  }

  /** Lines without line feeds are recovered by splitting the document on
      line feeds: one header line, then one line per row. */
  lemma DocumentLines(header: string, rows: seq<string>)
    requires '\n' !in header
    requires forall i :: 0 <= i < |rows| ==> '\n' !in rows[i]
    ensures Split(Document(header, rows), '\n') == [header] + rows
    ensures |Split(Document(header, rows), '\n')| == 1 + |rows|
  {
    SplitJoin([header] + rows, '\n');
  }

  /** A line of cells none of which holds a line feed holds none either. */
  lemma {:induction false} LineWithoutNewline(cells: seq<string>)
    requires forall i :: 0 <= i < |cells| ==> '\n' !in cells[i]
    ensures '\n' !in Line(cells)
  {
    if |cells| > 1 {
      LineWithoutNewline(cells[1..]);
    }
  }
}
