/** What the reader makes of lines that were written for it. */
module CsvRoundTrip {
  import opened Csv

  // ---------------------------------------------------------------- writing a line

  /** The blanks: space, tab, line feed, vertical tab, form feed, carriage return. */
  predicate IsBlank(c: char) {
    c == ' ' || c == '\t' || c == '\n' || c == '\U{0B}' || c == '\U{0C}' || c == '\r'
  }

  ghost predicate Blanks(s: string, d: char) {
    forall c :: c in s ==> IsBlank(c) && c != d
  }

  ghost predicate Without(s: string, d: char) {
    forall c :: c in s ==> c != d && c != HASH
  }

  function Doubled(f: string): string {
    if f == [] then [] else (if f[0] == QUOTE then [QUOTE, QUOTE] else [f[0]]) + Doubled(f[1..])
  }

  /**
   * A field in quotes, between blanks and any text that is ignored; a field without quotes, between blanks; or blanks
   * only.
   */
  datatype Cell =
    | Quoted(before: string, field: string, after: string)
    | Bare(before: string, field: string, after: string)
    | Nothing(before: string)

  ghost predicate CellOk(c: Cell, d: char) {
    && Blanks(c.before, d)
    && match c
       case Quoted(_, _, after) => d != QUOTE && Without(after, d) && (after != [] ==> after[0] != QUOTE)
       case Bare(_, field, after) =>
         && Blanks(after, d) && field != [] && Without(field, d)
         && field[0] != QUOTE && !IsBlank(field[0]) && !IsBlank(field[|field| - 1])
       case Nothing(_) => true
  }

  function CellText(c: Cell): string {
    match c
    case Quoted(before, field, after) => before + [QUOTE] + Doubled(field) + [QUOTE] + after
    case Bare(before, field, after) => before + field + after
    case Nothing(before) => before
  }

  /** What is read: the blanks behind an unquoted field are dropped if a delimiter follows, else they belong to it. */
  function CellValue(c: Cell, delimited: bool): string {
    match c
    case Quoted(_, field, _) => field
    case Bare(_, field, after) => if delimited then field else field + after
    case Nothing(_) => []
  }

  function Line(cells: seq<Cell>, d: char): string {
    if cells == [] then []
    else CellText(cells[0]) + (if |cells| == 1 then [] else [d] + Line(cells[1..], d))
  }

  function Values(cells: seq<Cell>, delimited: bool): seq<string> {
    if cells == [] then []
    else [CellValue(cells[0], |cells| > 1 || delimited)] + Values(cells[1..], delimited)
  }

  // ---------------------------------------------------------------- reading it back

  lemma BlankIsSpace(c: char)
    ensures IsBlank(c) <==> IsSpace(c)
  {
  }

  lemma {:induction false} SkipsBlanks(blanks: string, u: string, d: char)
    requires Blanks(blanks, d)
    ensures SkipBlanks(blanks + u, d) == SkipBlanks(u, d)
  {
    if blanks == [] {
      assert blanks + u == u;
    } else {
      assert blanks[0] in blanks && forall c :: c in blanks[1..] ==> c in blanks;
      assert (blanks + u)[1..] == blanks[1..] + u;
      SkipsBlanks(blanks[1..], u, d);
    }
  }

  lemma {:induction false} FieldEndBehind(ignored: string, u: string, d: char)
    requires Without(ignored, d)
    ensures FieldEnd(ignored + u, d) == FieldEnd(u, d)
  {
    if ignored == [] {
      assert ignored + u == u;
    } else {
      assert ignored[0] in ignored && forall c :: c in ignored[1..] ==> c in ignored;
      assert (ignored + u)[1..] == ignored[1..] + u;
      FieldEndBehind(ignored[1..], u, d);
    }
  }

  lemma QuotedChar(c: char, t: string, d: char)
    ensures QuotedText((if c == QUOTE then [QUOTE, QUOTE] else [c]) + t, d) == Cons(c, QuotedText(t, d))
  {
    if c == QUOTE {
      var u := [QUOTE, QUOTE] + t;
      assert u[0] == QUOTE && u[1] == QUOTE && u[2..] == t;
    } else {
      var u := [c] + t;
      assert u[0] == c && u[1..] == t;
    }
  }

  lemma ClosingQuote(u: string, d: char)
    requires u != [] ==> u[0] != QUOTE
    ensures QuotedText([QUOTE] + u, d) == Parsed([], FieldEnd(u, d))
  {
    hide FieldEnd;
    assert ([QUOTE] + u)[1..] == u;
  }

  lemma {:induction false} UndoublesQuotes(f: string, u: string, d: char)
    requires u != [] ==> u[0] != QUOTE
    ensures QuotedText(Doubled(f) + ([QUOTE] + u), d) == Parsed(f, FieldEnd(u, d))
  {
    hide FieldEnd, QuotedText, Doubled;
    DoubledParts(f);
    if f == [] {
      ClosingQuote(u, d);
      assert [] + ([QUOTE] + u) == [QUOTE] + u;
    } else {
      var first := if f[0] == QUOTE then [QUOTE, QUOTE] else [f[0]];
      var t := Doubled(f[1..]) + ([QUOTE] + u);
      UndoublesQuotes(f[1..], u, d);
      Regroup(first, Doubled(f[1..]), [QUOTE] + u);
      QuotedChar(f[0], t, d);
      assert [f[0]] + f[1..] == f;
    }
  }

  lemma DoubledParts(f: string)
    ensures f == [] ==> Doubled(f) == []
    ensures f != [] ==> Doubled(f) == (if f[0] == QUOTE then [QUOTE, QUOTE] else [f[0]]) + Doubled(f[1..])
  {
  }

  lemma Regroup(a: string, b: string, c: string)
    ensures a + b + c == a + (b + c)
  {
  }

  /** What may follow a cell. */
  ghost predicate Behind(u: string, d: char) {
    u == [] || u[0] == d || u[0] == HASH
  }

  lemma ColumnOfCell(c: Cell, u: string, d: char)
    requires CellOk(c, d) && Behind(u, d)
    ensures Column(CellText(c) + u, d) == Parsed(CellValue(c, u != [] && u[0] == d), FieldEnd(u, d))
  {
    hide FieldEnd, QuotedText, UnquotedText, Doubled, Column, Blanks, Without;
    match c {
      case Quoted(before, field, after) => ColumnOfQuoted(before, field, after, u, d);
      case Bare(before, field, after) => ColumnOfBare(before, field, after, u, d);
      case Nothing(before) => ColumnOfNothing(before, u, d);
    }
  }

  lemma ColumnOfQuoted(before: string, field: string, after: string, u: string, d: char)
    requires CellOk(Quoted(before, field, after), d) && Behind(u, d)
    ensures Column(CellText(Quoted(before, field, after)) + u, d) == Parsed(field, FieldEnd(u, d))
  {
    hide FieldEnd, QuotedText, UnquotedText, Doubled;
    var tail := after + u;
    var body := Doubled(field) + ([QUOTE] + tail);
    QuotedParts(before, field, after, u);
    SkipsBlanks(before, [QUOTE] + body, d);
    assert ([QUOTE] + body)[1..] == body;
    assert after == [] ==> tail == u;
    UndoublesQuotes(field, tail, d);
    FieldEndBehind(after, u, d);
  }

  lemma QuotedParts(before: string, field: string, after: string, u: string)
    ensures CellText(Quoted(before, field, after)) + u
         == before + ([QUOTE] + (Doubled(field) + ([QUOTE] + (after + u))))
  {
    hide Doubled;
    var f := Doubled(field);
    assert before + [QUOTE] + f + [QUOTE] + after + u == before + ([QUOTE] + (f + ([QUOTE] + (after + u))));
  }

  lemma {:induction false} TrimsBlanks(field: string, after: string)
    requires field != [] && !IsBlank(field[|field| - 1]) && forall c :: c in after ==> IsBlank(c)
    ensures TrimRight(field + after) == field
    decreases |after|
  {
    if after == [] {
      BlankIsSpace(field[|field| - 1]);
      assert field + after == field;
    } else {
      var n := |after| - 1;
      assert after[n] in after;
      BlankIsSpace(after[n]);
      assert (field + after)[..|field + after| - 1] == field + after[..n];
      TrimsBlanks(field, after[..n]);
    }
  }

  lemma ColumnOfBare(before: string, field: string, after: string, u: string, d: char)
    requires CellOk(Bare(before, field, after), d) && Behind(u, d)
    ensures Column(CellText(Bare(before, field, after)) + u, d)
         == Parsed(if u != [] && u[0] == d then field else field + after, FieldEnd(u, d))
  {
    hide FieldEnd, TrimRight, RawText;
    var raw := field + after;
    var t := raw + u;
    assert before + field + after + u == before + t;
    SkipsBlanks(before, t, d);
    BlankIsSpace(field[0]);
    assert field[0] in field;
    RawWithout(field, after, d);
    RawIs(raw, u, d);
    TrimsBlanks(field, after);
  }

  lemma RawWithout(field: string, after: string, d: char)
    requires Without(field, d) && Blanks(after, d)
    ensures Without(field + after, d)
  {
  }

  lemma RawIs(raw: string, u: string, d: char)
    requires Without(raw, d) && Behind(u, d)
    ensures RawText(raw + u, d) == raw && (raw + u)[|raw|..] == u
  {
    var t := raw + u;
    forall k | 0 <= k < |raw|
      ensures t[k] != d && t[k] != HASH
    {
      assert t[k] == raw[k] && raw[k] in raw;
    }
    RawTextStops(t, d, |raw|);
  }

  lemma ColumnOfNothing(before: string, u: string, d: char)
    requires Blanks(before, d) && Behind(u, d)
    ensures Column(before + u, d) == Parsed([], FieldEnd(u, d))
  {
    SkipsBlanks(before, u, d);
  }

  /** What may follow the last column without adding one: nothing, a delimiter, or a comment. */
  ghost predicate TailOk(tail: string, d: char) {
    tail == [] || tail == [d] || (tail[0] == HASH && d != HASH)
  }

  /** A line has to end in some character of its last cell or behind it, or that cell makes no column. */
  ghost predicate LineOk(cells: seq<Cell>, tail: string, d: char) {
    && (forall c :: c in cells ==> CellOk(c, d)) && TailOk(tail, d)
    && (tail == [] && cells != [] ==> CellText(cells[|cells| - 1]) != [])
    && (cells == [] ==> tail == [])
  }

  /**
   * Any cells joined by the delimiter come back, with a trailing delimiter or a comment behind the last one: what was
   * written in quotes exactly, with doubled quotes made single, whatever it contains; what was written without quotes
   * exactly if a delimiter follows, else with the blanks behind it.
   */
  lemma {:induction false} CellsComeBack(cells: seq<Cell>, tail: string, d: char)
    requires LineOk(cells, tail, d)
    ensures Columns(Line(cells, d) + tail, d) == Values(cells, tail == [d])
  {
    hide Column, Columns, CellText, CellOk, FieldEnd, CellValue, Line;
    if cells == [] {
      assert Line(cells, d) + tail == [] by { NoCells(d); }
      NoColumns(d);
    } else {
      var c, rest := cells[0], cells[1..];
      LineParts(cells, d);
      if |cells| == 1 {
        assert CellText(c) + [] + tail == CellText(c) + tail;
        ColumnOfCell(c, tail, d);
        LastColumn(CellText(c) + tail, CellValue(c, tail == [d]), tail, d);
        assert Values(rest, tail == [d]) == [];
      } else {
        var more := Line(rest, d) + tail;
        LineJoins(CellText(c), d, Line(rest, d), tail);
        ColumnOfCell(c, [d] + more, d);
        FirstColumn(CellText(c) + ([d] + more), CellValue(c, true), more, d);
        RestOk(cells, tail, d);
        CellsComeBack(rest, tail, d);
      }
    }
  }

  lemma NoCells(d: char)
    ensures Line([], d) == []
  {
  }

  lemma LineParts(cells: seq<Cell>, d: char)
    requires cells != []
    ensures Line(cells, d) == CellText(cells[0]) + (if |cells| == 1 then [] else [d] + Line(cells[1..], d))
  {
  }

  lemma LineJoins(text: string, d: char, rest: string, tail: string)
    ensures text + ([d] + rest) + tail == text + ([d] + (rest + tail))
  {
  }

  lemma RestOk(cells: seq<Cell>, tail: string, d: char)
    requires LineOk(cells, tail, d) && |cells| > 1
    ensures LineOk(cells[1..], tail, d)
  {
    hide CellOk;
    assert cells[1..][|cells| - 2] == cells[|cells| - 1];
  }

  function BareCells(before: seq<string>, fields: seq<string>, after: seq<string>): seq<Cell>
    requires |before| == |fields| == |after|
  {
    seq(|fields|, i requires 0 <= i < |fields| => Bare(before[i], fields[i], after[i]))
  }

  /**
   * In particular fields without quotes, with blanks in front of them and in front of each delimiter: they come back
   * exactly if the line ends in a delimiter or nothing follows the last field.
   */
  lemma BareFieldsComeBack(before: seq<string>, fields: seq<string>, after: seq<string>, tail: string, d: char)
    requires |before| == |fields| == |after| && (fields == [] ==> tail == [])
    requires forall i :: 0 <= i < |fields| ==>
               && fields[i] != [] && fields[i][0] != '"' && !IsBlank(fields[i][0])
               && !IsBlank(fields[i][|fields[i]| - 1])
               && (forall c :: c in fields[i] ==> c != d && c != '#')
               && (forall c :: c in before[i] + after[i] ==> IsBlank(c) && c != d)
    requires tail == [d] || (tail == [] && (fields != [] ==> after[|fields| - 1] == []))
    ensures Columns(Line(BareCells(before, fields, after), d) + tail, d) == fields
  {
    hide Columns, Line;
    var cells := BareCells(before, fields, after);
    forall c | c in cells
      ensures CellOk(c, d)
    {
      var i :| 0 <= i < |cells| && c == cells[i];
      BareCellOk(before[i], fields[i], after[i], d);
    }
    CellsComeBack(cells, tail, d);
    BareValues(before, fields, after, tail == [d]);
  }

  lemma BareCellOk(before: string, field: string, after: string, d: char)
    requires field != [] && field[0] != QUOTE && !IsBlank(field[0]) && !IsBlank(field[|field| - 1])
    requires (forall c :: c in field ==> c != d && c != HASH)
    requires forall c :: c in before + after ==> IsBlank(c) && c != d
    ensures CellOk(Bare(before, field, after), d)
  {
    hide IsBlank;
    forall c | c in before || c in after
      ensures c in before + after
    {
    }
  }

  lemma {:induction false} BareValues(before: seq<string>, fields: seq<string>, after: seq<string>, delimited: bool)
    requires |before| == |fields| == |after|
    requires delimited || (fields != [] ==> after[|fields| - 1] == [])
    ensures Values(BareCells(before, fields, after), delimited) == fields
    decreases |fields|
  {
    var cells := BareCells(before, fields, after);
    if fields != [] {
      BareValues(before[1..], fields[1..], after[1..], delimited);
      var rest := BareCells(before[1..], fields[1..], after[1..]);
      forall i | 0 <= i < |rest|
        ensures rest[i] == cells[1..][i]
      {
      }
      assert cells[1..] == rest;
      assert fields[0] + [] == fields[0];
    }
  }

  lemma {:induction false} UndoublesToTheEnd(f: string, d: char)
    ensures QuotedText(Doubled(f), d) == Parsed(f, [])
  {
    hide QuotedText, Doubled;
    DoubledParts(f);
    if f == [] {
      QuotedNothing(d);
    } else {
      UndoublesToTheEnd(f[1..], d);
      QuotedChar(f[0], Doubled(f[1..]), d);
      assert [f[0]] + f[1..] == f;
    }
  }

  lemma QuotedNothing(d: char)
    ensures QuotedText([], d) == Parsed([], [])
  {
  }

  lemma NoColumns(d: char)
    ensures Columns([], d) == []
  {
  }

  lemma FirstColumn(t: string, value: string, more: string, d: char)
    requires t != [] && Column(t, d) == Parsed(value, FieldEnd([d] + more, d))
    ensures Columns(t, d) == [value] + Columns(more, d)
  {
    hide Column;
    assert FieldEnd([d] + more, d) == [d] + more;
    assert ([d] + more)[1..] == more;
  }

  lemma LastColumn(t: string, value: string, tail: string, d: char)
    requires t != [] && TailOk(tail, d) && Column(t, d) == Parsed(value, FieldEnd(tail, d))
    ensures Columns(t, d) == [value]
  {
    hide Column;
    NoColumns(d);
    assert FieldEnd(tail, d) == if tail == [d] then tail else [];
    assert tail == [d] ==> tail[1..] == [];
  }

  function Plain(fields: seq<string>): seq<Cell> {
    if fields == [] then [] else [Quoted([], fields[0], [])] + Plain(fields[1..])
  }

  lemma {:induction false} PlainFields(fields: seq<string>, d: char)
    ensures Values(Plain(fields), false) == fields && |Plain(fields)| == |fields|
    ensures forall c :: c in Plain(fields) ==> c.Quoted? && (d != QUOTE ==> CellOk(c, d)) && CellText(c) != []
  {
    if fields != [] { PlainFields(fields[1..], d); }
  }

  /** Quote every field, double the inner quotes, join with the delimiter. */
  function QuotedLine(fields: seq<string>, d: char): string {
    Line(Plain(fields), d)
  }

  /** Each column takes at least one character, so a line has no more columns than characters. */
  lemma {:induction false} ColumnsConsume(t: string, d: char)
    ensures |Columns(t, d)| <= |t| && (t != [] <==> Columns(t, d) != [])
    decreases |t|
  {
    hide Column;
    if t != [] {
      var rest := Column(t, d).rest;
      if rest != [] { ColumnsConsume(rest[1..], d); }
    }
  }

  // ---------------------------------------------------------------- the one delimiter that cannot work

  function Empties(n: nat): seq<string> {
    seq(n, _ => [])
  }

  /** With the quote as delimiter every quote ends an empty column. */
  lemma LeadingQuote(t: string)
    ensures Columns([QUOTE] + t, QUOTE) == [[]] + Columns(t, QUOTE)
  {
    var s := [QUOTE] + t;
    assert s[1..] == t;
    assert SkipBlanks(s, QUOTE) == s;
    if t == [] { assert Columns(t, QUOTE) == []; }
  }

  lemma QuotedLineStarts(fields: seq<string>, d: char)
    requires fields != []
    ensures var more := if |fields| == 1 then [] else [d] + QuotedLine(fields[1..], d);
            QuotedLine(fields, d) == [QUOTE] + (Doubled(fields[0]) + [QUOTE] + more)
  {
    hide Doubled, Line;
    PlainFields(fields, d);
    var cells := Plain(fields);
    assert cells[0] == Quoted([], fields[0], []) && cells[1..] == Plain(fields[1..]);
    var more := if |fields| == 1 then [] else [d] + QuotedLine(fields[1..], d);
    assert Line(cells, d) == CellText(cells[0]) + more by { LineParts(cells, d); }
    PlainCell(Doubled(fields[0]), more);
  }

  lemma PlainCell(f: string, more: string)
    ensures [] + [QUOTE] + f + [QUOTE] + [] + more == [QUOTE] + (f + [QUOTE] + more)
  {
  }

  lemma {:induction false} QuoteDelimiterFails(n: nat, fields: seq<string>)
    requires fields != []
    ensures Empties(n) + Columns(QuotedLine(fields, QUOTE), QUOTE) != fields
    decreases |fields|
  {
    hide Columns, QuotedLine;
    var line := QuotedLine(fields, QUOTE);
    var f := fields[0];
    var more := if |fields| == 1 then [] else [QUOTE] + QuotedLine(fields[1..], QUOTE);
    QuotedLineStarts(fields, QUOTE);
    LeadingQuote(Doubled(f) + [QUOTE] + more);
    if f == [] {
      assert Doubled(f) + [QUOTE] + more == [QUOTE] + more;
      LeadingQuote(more);
      if |fields| > 1 {
        var rest := QuotedLine(fields[1..], QUOTE);
        LeadingQuote(rest);
        QuoteDelimiterFails(n + 2, fields[1..]);
        var all := Empties(n) + Columns(line, QUOTE);
        assert all == Empties(n) + ([[]] + ([[]] + ([[]] + Columns(rest, QUOTE))));
        assert all[1..] == Empties(n + 2) + Columns(rest, QUOTE);
      }
    } else {
      assert (Empties(n) + Columns(line, QUOTE))[0] == [];
    }
  }

  /** The round trip holds for every delimiter but the quote, and for that one only when there is nothing to write. */
  lemma RoundTrip(fields: seq<string>, d: char)
    ensures Columns(QuotedLine(fields, d), d) == fields <==> d != QUOTE || fields == []
  {
    hide Columns, Line, Plain, CellOk, Values;
    if d != QUOTE {
      PlainFields(fields, d);
      CellsComeBack(Plain(fields), [], d);
      assert Line(Plain(fields), d) + [] == Line(Plain(fields), d);
    } else if fields == [] {
      NothingWritten();
    } else {
      QuoteDelimiterFails(0, fields);
      assert Empties(0) + Columns(QuotedLine(fields, QUOTE), QUOTE) == Columns(QuotedLine(fields, QUOTE), QUOTE);
    }
  }

  lemma NothingWritten()
    ensures QuotedLine([], QUOTE) == [] && Columns([], QUOTE) == []
  {
  }

  // ---------------------------------------------------------------- blanks and comments

  /** The header's own kind of example: the blank in front of the comment is kept. */
  lemma BlankBeforeComment()
    ensures Columns("1,2 # c", ',') == ["1", "2 "]
  {
    hide Columns;
    var cells := [Bare("", "1", ""), Bare("", "2", " ")];
    CellsComeBack(cells, "# c", ',');
    assert cells[1..] == [Bare("", "2", " ")];
    assert "" + "2" + " " == "2 " && "2" + " " == "2 ";
    assert Line(cells[1..], ',') == "2 " && Line(cells, ',') + "# c" == "1,2 # c";
    assert cells[1..][1..] == [];
    assert Values(cells[1..], false) == ["2 "];
    assert Values(cells, false) == ["1"] + ["2 "];
  }

  // ---------------------------------------------------------------- blank rows

  /** Any line is blanks and a rest that does not start with one. */
  lemma {:induction false} EveryLineSplits(t: string, d: char) returns (blanks: string, u: string)
    ensures t == blanks + u && Blanks(blanks, d) && (u == [] || u[0] == d || !IsBlank(u[0]))
  {
    if t == [] || t[0] == d || !IsBlank(t[0]) {
      blanks, u := [], t;
    } else {
      blanks, u := EveryLineSplits(t[1..], d);
      blanks := [t[0]] + blanks;
    }
  }

  /** At most its last character is a delimiter, apart from those behind a hash. */
  ghost predicate NothingBehind(x: string, d: char) {
    forall i :: 0 <= i < |x| - 1 && x[i] == d ==> HASH in x[..i]
  }

  /** Nothing; a delimiter; a comment; or an empty string in quotes, perhaps not closed, without a field behind it. */
  ghost predicate EmptyField(u: string, d: char) {
    || u == [] || u == [d]
    || (u[0] == HASH && d != HASH)
    || (u[0] == QUOTE && d != QUOTE
        && (|u| == 1 || (u[1] == QUOTE && (|u| > 2 ==> u[2] != QUOTE) && NothingBehind(u[2..], d))))
  }

  /**
   * Which lines are blank rows: those that have a character, and behind their blanks an empty field and no other. So an
   * unquoted field, a character in quotes or a second column makes a row that is not blank.
   */
  lemma BlankRows(blanks: string, u: string, d: char)
    requires Blanks(blanks, d) && (u == [] || u[0] == d || !IsBlank(u[0]))
    ensures Blank(Columns(blanks + u, d)) <==> blanks + u != [] && EmptyField(u, d)
  {
    hide Columns, Column, NothingBehind;
    var t := blanks + u;
    if t == [] {
      NoColumns(d);
    } else {
      OneEmptyColumn(t, d);
      FirstOfLine(blanks, u, d);
      if u == [] || u[0] == d || u[0] == HASH {
        assert u != [] && u[0] == d ==> (|u| == 1 <==> u == [d]);
      } else if u[0] == QUOTE {
        EmptyQuotes(u[1..], d);
        assert |u| > 1 ==> u[1..][1..] == u[2..];
      } else {
        BlankIsSpace(u[0]);
        UnquotedNotEmpty(u, d);
      }
    }
  }

  /** A row is blank if its first column is empty and no text follows the delimiter behind it. */
  lemma OneEmptyColumn(t: string, d: char)
    requires t != []
    ensures Blank(Columns(t, d)) <==> Column(t, d).value == [] && |Column(t, d).rest| <= 1
  {
    hide Column;
    var rest := Column(t, d).rest;
    if rest != [] { ColumnsConsume(rest[1..], d); }
  }

  lemma FirstOfLine(blanks: string, u: string, d: char)
    requires Blanks(blanks, d) && (u == [] || u[0] == d || !IsBlank(u[0]))
    ensures Column(blanks + u, d) == if u == [] || u[0] == d then Parsed([], u) else if u[0] == HASH then Parsed([], [])
                                     else if u[0] == QUOTE then QuotedText(u[1..], d) else UnquotedText(u, d)
  {
    hide QuotedText, UnquotedText;
    SkipsBlanks(blanks, u, d);
    if u != [] { BlankIsSpace(u[0]); }
  }

  /** A quote that is never closed takes the rest of the line. */
  lemma UnclosedQuote(before: string, f: string, d: char)
    requires d != QUOTE && Blanks(before, d)
    ensures Columns(before + [QUOTE] + Doubled(f), d) == [f]
  {
    hide QuotedText, Doubled, Column, Blanks;
    var u := [QUOTE] + Doubled(f);
    assert before + [QUOTE] + Doubled(f) == before + u;
    FirstOfLine(before, u, d);
    assert u[1..] == Doubled(f);
    UndoublesToTheEnd(f, d);
  }

  lemma UnquotedNotEmpty(u: string, d: char)
    requires u != [] && u[0] != d && u[0] != HASH && !IsSpace(u[0])
    ensures UnquotedText(u, d).value != []
  {
    hide FieldEnd;
    var raw := RawText(u, d);
    assert raw != [] && raw[0] == u[0];
  }

  lemma EmptyQuotes(v: string, d: char)
    ensures var p := QuotedText(v, d);
            p.value == [] && |p.rest| <= 1
            <==> v == [] || (v[0] == QUOTE && (|v| > 1 ==> v[1] != QUOTE) && NothingBehind(v[1..], d))
  {
    hide FieldEnd, NothingBehind;
    if v != [] { FieldEndShort(v[1..], d); }
  }

  lemma {:induction false} FieldEndShort(x: string, d: char)
    ensures |FieldEnd(x, d)| <= 1 <==> NothingBehind(x, d)
  {
    if x == [] {
    } else if x[0] == d {
      assert x[..0] == [];
    } else if x[0] == HASH {
      forall i | 0 <= i < |x| - 1 && x[i] == d
        ensures HASH in x[..i]
      {
        assert x[..i][0] == HASH;
      }
    } else {
      FieldEndShort(x[1..], d);
      NothingBehindLater(x, d);
    }
  }

  lemma NothingBehindLater(x: string, d: char)
    requires x != [] && x[0] != d && x[0] != HASH
    ensures NothingBehind(x, d) <==> NothingBehind(x[1..], d)
  {
    forall i | 1 <= i < |x|
      ensures HASH in x[..i] <==> HASH in x[1..][..i - 1]
    {
      assert x[..i] == [x[0]] + x[1..][..i - 1];
    }
    if NothingBehind(x, d) {
      forall i | 0 <= i < |x[1..]| - 1 && x[1..][i] == d
        ensures HASH in x[1..][..i]
      {
        assert x[i + 1] == d && HASH in x[..i + 1];
      }
    }
    if NothingBehind(x[1..], d) {
      forall i | 0 <= i < |x| - 1 && x[i] == d
        ensures HASH in x[..i]
      {
        assert x[1..][i - 1] == d;
      }
    }
  }
}
