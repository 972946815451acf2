/** One line of comma separated values: what its columns are, and the state machine that finds them. */
module Csv {

  const QUOTE: char := '"'
  const HASH: char := '#'

  /** The white space of the C locale. */
  predicate IsSpace(c: char) {
    c == ' ' || ('\t' <= c && c <= '\r')
  }

  // ---------------------------------------------------------------- what a column is

  /** A column's value and the text behind it, which starts with the delimiter or is empty. */
  datatype Parsed = Parsed(value: string, rest: string)

  /** Skip to the delimiter; a comment goes on to the end of the line. */
  function FieldEnd(t: string, d: char): (rest: string)
    ensures |rest| <= |t|
    ensures rest != [] ==> rest[0] == d
  {
    if t == [] || t[0] == d then t else if t[0] == HASH then [] else FieldEnd(t[1..], d)
  }

  function Cons(c: char, p: Parsed): Parsed {
    p.(value := [c] + p.value)
  }

  /** The text of a quoted field, from behind its opening quote: a doubled quote stands for one. */
  function QuotedText(t: string, d: char): (p: Parsed)
    ensures |p.rest| <= |t|
    ensures p.rest != [] ==> p.rest[0] == d
  {
    if t == [] then Parsed([], t)
    else if t[0] != QUOTE then Cons(t[0], QuotedText(t[1..], d))
    else if |t| > 1 && t[1] == QUOTE then Cons(QUOTE, QuotedText(t[2..], d))
    else Parsed([], FieldEnd(t[1..], d))
  }

  /** The text of an unquoted field up to its delimiter or comment. */
  function RawText(t: string, d: char): (raw: string)
    ensures |raw| <= |t| && raw == t[..|raw|]
    ensures forall c :: c in raw ==> c != d && c != HASH
    ensures |raw| < |t| ==> t[|raw|] == d || t[|raw|] == HASH
  {
    if t == [] || t[0] == d || t[0] == HASH then [] else [t[0]] + RawText(t[1..], d)
  }

  function TrimRight(s: string): (r: string)
    ensures r <= s && (r != [] ==> !IsSpace(r[|r| - 1]))
    ensures forall k :: |r| <= k < |s| ==> IsSpace(s[k])
  {
    if s != [] && IsSpace(s[|s| - 1]) then TrimRight(s[..|s| - 1]) else s
  }

  predicate EndsInDelimiter(t: string, d: char) {
    var raw := RawText(t, d);
    |raw| < |t| && t[|raw|] == d
  }

  /** Blanks at the end are dropped only in front of a delimiter. */
  function UnquotedText(t: string, d: char): Parsed {
    var raw := RawText(t, d);
    Parsed(if EndsInDelimiter(t, d) then TrimRight(raw) else raw, FieldEnd(t[|raw|..], d))
  }

  function SkipBlanks(t: string, d: char): (rest: string)
    ensures |rest| <= |t|
    ensures rest != [] ==> rest[0] == d || !IsSpace(rest[0])
  {
    if t == [] || t[0] == d || !IsSpace(t[0]) then t else SkipBlanks(t[1..], d)
  }

  /** The first column of a line. */
  function Column(t: string, d: char): (p: Parsed)
    ensures |p.rest| <= |t|
    ensures p.rest != [] ==> p.rest[0] == d
  {
    var u := SkipBlanks(t, d);
    if u == [] || u[0] == d then Parsed([], u)
    else if u[0] == HASH then Parsed([], [])
    else if u[0] == QUOTE then QuotedText(u[1..], d)
    else UnquotedText(u, d)
  }

  /** All columns: each one takes at least one character of the line away, its delimiter included. */
  function Columns(t: string, d: char): seq<string>
    decreases |t|
  {
    if t == [] then []
    else
      var p := Column(t, d);
      [p.value] + (if p.rest == [] then [] else Columns(p.rest[1..], d))
  }

  /** A row is blank when it has one column and that is empty. */
  predicate Blank(columns: seq<string>) {
    |columns| == 1 && columns[0] == []
  }

  // ---------------------------------------------------------------- the reader

  datatype State = BEGIN | END_QUOTE | FIND_DELIMITER | QUOTED_STRING | UNQUOTED_STRING | END

  class CsvReader {
    const delimiter: char
    var columns: seq<string>
    var blankRow: bool

    constructor (delimiter: char)
      ensures this.delimiter == delimiter && columns == [] && !blankRow
    {
      this.delimiter := delimiter;
      columns := [];
      blankRow := false;
    }

    method ParseLine(line: string)
      modifies this
      ensures columns == Columns(line, delimiter) && blankRow == Blank(columns)
    {
      hide Column, Columns;
      columns := [];
      var start := 0;
      assert line[0..] == line && [] + Columns(line, delimiter) == Columns(line, delimiter);
      while start != |line|
        invariant 0 <= start <= |line|
        invariant columns + Columns(line[start..], delimiter) == Columns(line, delimiter)
        decreases |line| - start
      {
        var value, stop := ParseColumn(line, start);
        OneMoreColumn(columns, line, start, value, stop, delimiter);
        columns := columns + [value];
        if stop != |line| {
          stop := stop + 1;
        }
        start := stop;
      }
      NoMoreColumns(columns, line, delimiter);
      blankRow := |columns| == 1 && columns[0] == [];
    }

    /** One column from position `begin`, and where it stopped: at a delimiter or at the end. */
    method ParseColumn(line: string, begin: nat) returns (buffer: string, at: nat)
      requires begin <= |line|
      ensures begin <= at <= |line| && Column(line[begin..], delimiter) == Parsed(buffer, line[at..])
    {
      hide Column;
      var state := BEGIN;
      buffer := [];
      at := begin;
      ghost var start := begin;
      while state != END
        invariant begin <= at <= |line|
        invariant Running(state, line, begin, start, at, buffer, delimiter)
        decreases state != END, |line| - at
      {
        if at == |line| {
          AtEnd(state, line, begin, start, buffer, delimiter);
          state := END;
          continue;
        }
        var c := line[at];
        if state != QUOTED_STRING {
          if c == delimiter {
            AtDelimiter(state, line, begin, start, at, buffer, delimiter);
            if state == UNQUOTED_STRING {
              ghost var raw := buffer;
              while buffer != [] && IsSpace(buffer[|buffer| - 1])
                invariant TrimRight(buffer) == TrimRight(raw)
                decreases |buffer|
              {
                buffer := buffer[..|buffer| - 1];
              }
            }
            state := END;
            continue;
          } else if c == HASH {
            AtComment(state, line, begin, start, at, buffer, delimiter);
            at := |line|;
            state := END;
            continue;
          }
        }
        match state {
          case BEGIN =>
            AtBegin(line, begin, start, at, buffer, delimiter);
            if c == QUOTE {
              state := QUOTED_STRING;
            } else if !IsSpace(c) {
              state := UNQUOTED_STRING;
              buffer := buffer + [c];
              start := at;
            }
          case QUOTED_STRING =>
            InQuotes(line, begin, start, at, buffer, delimiter);
            if c == QUOTE {
              state := END_QUOTE;
            } else {
              buffer := buffer + [c];
            }
          case END_QUOTE =>
            BehindQuote(line, begin, start, at, buffer, delimiter);
            if c == QUOTE {
              state := QUOTED_STRING;
              buffer := buffer + [c];
            } else {
              state := FIND_DELIMITER;
            }
          case UNQUOTED_STRING =>
            InField(state, line, begin, start, at, buffer, delimiter);
            buffer := buffer + [c];
          case FIND_DELIMITER =>
            InField(state, line, begin, start, at, buffer, delimiter);
          case END =>
        }
        at := at + 1;
      }
    }
  }

  // ---------------------------------------------------------------- column by column

  lemma OneMoreColumn(columns: seq<string>, line: string, start: nat, value: string, stop: nat, d: char)
    requires start < |line| && stop <= |line| && Column(line[start..], d) == Parsed(value, line[stop..])
    ensures var next := if stop < |line| then stop + 1 else stop;
            columns + Columns(line[start..], d) == columns + [value] + Columns(line[next..], d)
  {
    hide Column;
    if stop < |line| {
      assert line[stop..][1..] == line[stop + 1..];
    } else {
      assert line[stop..] == [];
    }
    var next := if stop < |line| then stop + 1 else stop;
    assert Columns(line[start..], d) == [value] + Columns(line[next..], d);
    assert columns + ([value] + Columns(line[next..], d)) == columns + [value] + Columns(line[next..], d);
  }

  lemma NoMoreColumns(columns: seq<string>, line: string, d: char)
    ensures columns + Columns(line[|line|..], d) == columns
  {
    assert line[|line|..] == [];
    assert columns + [] == columns;
  }

  // ---------------------------------------------------------------- the states of the parser

  function Prepend(s: string, p: Parsed): Parsed {
    p.(value := s + p.value)
  }

  function AfterQuote(t: string, d: char): Parsed {
    if t != [] && t[0] == QUOTE then Cons(QUOTE, QuotedText(t[1..], d)) else Parsed([], FieldEnd(t, d))
  }

  /** What the column will be, given what has been read: the meaning of each state. */
  ghost predicate Running(state: State, line: string, begin: nat, start: nat, at: nat, buffer: string, d: char) {
    && begin <= start <= |line| && begin <= at <= |line|
    && var p := Column(line[begin..], d);
    match state
    case BEGIN => buffer == [] && p == Column(line[at..], d)
    case QUOTED_STRING => d != QUOTE && p == Prepend(buffer, QuotedText(line[at..], d))
    case END_QUOTE => d != QUOTE && p == Prepend(buffer, AfterQuote(line[at..], d))
    case FIND_DELIMITER => p == Parsed(buffer, FieldEnd(line[at..], d))
    case UNQUOTED_STRING =>
      && start <= at && buffer == line[start..at] && (forall c :: c in buffer ==> c != d && c != HASH)
      && p == UnquotedText(line[start..], d)
    case END => p == Parsed(buffer, line[at..])
  }

  lemma {:induction false} RawTextStops(t: string, d: char, n: nat)
    requires n <= |t| && (forall k :: 0 <= k < n ==> t[k] != d && t[k] != HASH)
    requires n < |t| ==> t[n] == d || t[n] == HASH
    ensures RawText(t, d) == t[..n]
  {
    if n > 0 {
      RawTextStops(t[1..], d, n - 1);
      assert t[..n] == [t[0]] + t[1..][..n - 1];
    }
  }

  /** An unquoted field read to its end. */
  lemma UnquotedEnds(line: string, start: nat, at: nat, d: char)
    requires start <= at <= |line| && (forall c :: c in line[start..at] ==> c != d && c != HASH)
    requires at < |line| ==> line[at] == d || line[at] == HASH
    ensures UnquotedText(line[start..], d)
         == Parsed(if at < |line| && line[at] == d then TrimRight(line[start..at]) else line[start..at],
                   FieldEnd(line[at..], d))
  {
    var t, n := line[start..], at - start;
    forall k | 0 <= k < n
      ensures t[k] != d && t[k] != HASH
    {
      assert t[k] == line[start..at][k] && t[k] in line[start..at];
    }
    RawTextStops(t, d, n);
    assert t[..n] == line[start..at] && t[n..] == line[at..];
  }

  lemma AtEnd(state: State, line: string, begin: nat, start: nat, buffer: string, d: char)
    requires state != END && Running(state, line, begin, start, |line|, buffer, d)
    ensures Running(END, line, begin, start, |line|, buffer, d)
  {
    assert line[|line|..] == [];
    if state == UNQUOTED_STRING {
      UnquotedEnds(line, start, |line|, d);
    }
  }

  lemma AtDelimiter(state: State, line: string, begin: nat, start: nat, at: nat, buffer: string, d: char)
    requires state != END && state != QUOTED_STRING && at < |line| && line[at] == d
    requires Running(state, line, begin, start, at, buffer, d)
    ensures Running(END, line, begin, start, at, if state == UNQUOTED_STRING then TrimRight(buffer) else buffer, d)
  {
    assert line[at..][0] == d;
    if state == UNQUOTED_STRING {
      UnquotedEnds(line, start, at, d);
    }
  }

  lemma AtComment(state: State, line: string, begin: nat, start: nat, at: nat, buffer: string, d: char)
    requires state != END && state != QUOTED_STRING && at < |line| && line[at] == HASH && d != HASH
    requires Running(state, line, begin, start, at, buffer, d)
    ensures Running(END, line, begin, start, |line|, buffer, d)
  {
    assert line[at..][0] == HASH;
    assert line[|line|..] == [];
    if state == UNQUOTED_STRING {
      UnquotedEnds(line, start, at, d);
    }
  }

  /** One ordinary character, state by state. */
  lemma AtBegin(line: string, begin: nat, start: nat, at: nat, buffer: string, d: char)
    requires at < |line| && line[at] != d && line[at] != HASH && Running(BEGIN, line, begin, start, at, buffer, d)
    ensures line[at] == QUOTE ==> Running(QUOTED_STRING, line, begin, start, at + 1, buffer, d)
    ensures line[at] != QUOTE && IsSpace(line[at]) ==> Running(BEGIN, line, begin, start, at + 1, buffer, d)
    ensures line[at] != QUOTE && !IsSpace(line[at]) ==>
              Running(UNQUOTED_STRING, line, begin, at, at + 1, buffer + [line[at]], d)
  {
    hide QuotedText, UnquotedText;
    var t := line[at..];
    assert t[0] == line[at] && t[1..] == line[at + 1..];
    assert Prepend([], QuotedText(t[1..], d)) == QuotedText(t[1..], d);
    assert line[at..at + 1] == [line[at]];
    if line[at] == QUOTE {
      assert SkipBlanks(t, d) == t;
    } else if IsSpace(line[at]) {
      assert SkipBlanks(t, d) == SkipBlanks(t[1..], d);
    } else {
      assert SkipBlanks(t, d) == t;
    }
  }

  lemma InQuotes(line: string, begin: nat, start: nat, at: nat, buffer: string, d: char)
    requires at < |line| && Running(QUOTED_STRING, line, begin, start, at, buffer, d)
    ensures line[at] == QUOTE ==> Running(END_QUOTE, line, begin, start, at + 1, buffer, d)
    ensures line[at] != QUOTE ==> Running(QUOTED_STRING, line, begin, start, at + 1, buffer + [line[at]], d)
  {
    hide FieldEnd, Column;
    var t := line[at..];
    var u := t[1..];
    assert t[0] == line[at] && u == line[at + 1..];
    if t[0] == QUOTE {
      assert |t| > 1 ==> t[1] == u[0] && t[2..] == u[1..];
      assert QuotedText(t, d) == AfterQuote(u, d);
    } else {
      PrependCons(buffer, t[0], QuotedText(u, d));
    }
  }

  lemma BehindQuote(line: string, begin: nat, start: nat, at: nat, buffer: string, d: char)
    requires at < |line| && line[at] != d && line[at] != HASH
    requires Running(END_QUOTE, line, begin, start, at, buffer, d)
    ensures line[at] == QUOTE ==> Running(QUOTED_STRING, line, begin, start, at + 1, buffer + [line[at]], d)
    ensures line[at] != QUOTE ==> Running(FIND_DELIMITER, line, begin, start, at + 1, buffer, d)
  {
    hide QuotedText, Column;
    var t := line[at..];
    assert t[0] == line[at] && t[1..] == line[at + 1..];
    PrependCons(buffer, t[0], QuotedText(t[1..], d));
    assert buffer + [] == buffer;
  }

  lemma PrependCons(s: string, c: char, p: Parsed)
    ensures Prepend(s, Cons(c, p)) == Prepend(s + [c], p)
  {
    assert s + ([c] + p.value) == s + [c] + p.value;
  }

  lemma InField(state: State, line: string, begin: nat, start: nat, at: nat, buffer: string, d: char)
    requires state == UNQUOTED_STRING || state == FIND_DELIMITER
    requires at < |line| && line[at] != d && line[at] != HASH
    requires Running(state, line, begin, start, at, buffer, d)
    ensures Running(state, line, begin, start, at + 1,
                    if state == UNQUOTED_STRING then buffer + [line[at]] else buffer, d)
  {
    hide QuotedText, Column, UnquotedText;
    var t := line[at..];
    assert t[0] == line[at] && t[1..] == line[at + 1..];
    if state == UNQUOTED_STRING { assert line[start..at + 1] == line[start..at] + [line[at]]; }
  }
}
