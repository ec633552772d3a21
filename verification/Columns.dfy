/** Blank-separated columns of printed counters. */
module Columns {
  import opened CText
  import opened Lines
  import opened Numbers
  import opened Tokenizer

  const SPACE: set<char> := {' '}
  const BLANK: set<char> := {' ', '\n'}

  /** Counters v, counter i printed after padding pads[i]. */
  function NumberCells(pads: seq<string>, v: seq<int>): (cs: seq<Cell>)
    requires |pads| == |v| && forall i :: 0 <= i < |v| ==> v[i] >= 0
    ensures |cs| == |v|
  {
    seq(|v|, i requires 0 <= i < |v| => Cell(pads[i], Decimal(v[i])))
  }

  ghost predicate Printable(pads: seq<string>, v: seq<int>) {
    && |pads| == |v|
    && (forall i :: 0 <= i < |v| ==> 0 <= v[i] < U64)
    && (forall i :: 0 <= i < |v| ==> Only(pads[i], {' '}))
    && (forall i :: 1 <= i < |v| ==> pads[i] != [])
  }

  /** Printed counters come back token by token. */
  lemma NumbersRoundTrip(pads: seq<string>, v: seq<int>)
    requires Printable(pads, v)
    ensures var ts := Tokens(Row(NumberCells(pads, v), "\n"), BLANK);
            |ts| == |v| && forall i :: 0 <= i < |v| ==> StrToUL(ts[i]) == v[i]
  {
    NumbersReadable(pads, v);
    RowRoundTrip(NumberCells(pads, v), "\n", BLANK);
    forall i | 0 <= i < |v| ensures StrToUL(Words(NumberCells(pads, v))[i]) == v[i] {
      ReadBack(v[i]);
    }
  }

  lemma NumbersReadable(pads: seq<string>, v: seq<int>)
    requires Printable(pads, v)
    ensures Readable(NumberCells(pads, v), BLANK)
  {
    forall i | 0 <= i < |v| ensures Only(pads[i], BLANK) {
      assert Only(pads[i], {' '});
    }
  }

  lemma ReadBack(n: nat)
    requires n < U64
    ensures StrToUL(Decimal(n)) == n
  {
    DecimalRoundTrip(n, "");
    assert Decimal(n) + "" == Decimal(n);
  }

  lemma LineAfter(a: string, l: string)
    requires IsLine(l) && NoNul(l) && Free(a, {'\n'}) && NoNul(a)
    ensures IsLine(a + l) && NoNul(a + l)
  {
  }

  /** A row of words without newlines and NULs, ended by a newline, is a line. */
  lemma {:induction false} RowIsLine(cells: seq<Cell>)
    requires forall i :: 0 <= i < |cells| ==> Only(cells[i].pad, {' '}) && Free(cells[i].word, {'\n'}) && NoNul(cells[i].word)
    ensures IsLine(Row(cells, "\n")) && NoNul(Row(cells, "\n"))
  {
    if cells != [] {
      var c := cells[0];
      assert Only(c.pad, {' '}) && Free(c.word, {'\n'}) && NoNul(c.word);
      RowIsLine(cells[1..]);
      assert Row(cells, "\n") == (c.pad + c.word) + Row(cells[1..], "\n");
      LineAfter(c.pad + c.word, Row(cells[1..], "\n"));
    }
  }

  lemma NumbersAreLine(pads: seq<string>, v: seq<int>)
    requires Printable(pads, v)
    ensures IsLine(Row(NumberCells(pads, v), "\n")) && NoNul(Row(NumberCells(pads, v), "\n"))
  {
    RowIsLine(NumberCells(pads, v));
  }

  // ----- a label, then counters separated by d only, so that the last one keeps the newline

  function LabelledCells(head: string, pads: seq<string>, v: seq<int>): (cs: seq<Cell>)
    requires |pads| == |v| && forall i :: 0 <= i < |v| ==> v[i] >= 0
    ensures |cs| == 1 + |v|
  {
    [Cell("", head)] + seq(|v|, i requires 0 <= i < |v| =>
      Cell(pads[i], Decimal(v[i]) + if i == |v| - 1 then "\n" else ""))
  }

  ghost predicate Labelled(head: string, pads: seq<string>, v: seq<int>, d: set<char>) {
    && head != [] && Free(head, d) && |pads| == |v|
    && (forall i :: 0 <= i < |v| ==> Only(pads[i], d) && pads[i] != [])
    && (forall i :: 0 <= i < |v| ==> 0 <= v[i] < U64)
  }

  lemma LabelledReadable(head: string, pads: seq<string>, v: seq<int>, d: set<char>)
    requires Labelled(head, pads, v, d) && '\n' !in d && forall c :: c in d ==> !IsDigit(c)
    ensures Readable(LabelledCells(head, pads, v), d)
    ensures forall i :: 0 <= i < |v| ==> StrToUL(LabelledCells(head, pads, v)[i + 1].word) == v[i]
  {
    var cs := LabelledCells(head, pads, v);
    forall i | 0 <= i < |v|
      ensures Only(cs[i + 1].pad, d) && cs[i + 1].pad != [] && Free(cs[i + 1].word, d)
      ensures StrToUL(cs[i + 1].word) == v[i]
    {
      DecimalRoundTrip(v[i], if i == |v| - 1 then "\n" else "");
    }
    forall i | 1 <= i < |cs| ensures Only(cs[i].pad, d) && cs[i].pad != [] && cs[i].word != [] && Free(cs[i].word, d) {
      assert cs[i] == cs[(i - 1) + 1];
    }
  }

  /** The tokens of a labelled row: the label, then words that read as the counters. */
  lemma LabelledRoundTrip(head: string, pads: seq<string>, v: seq<int>, d: set<char>)
    requires Labelled(head, pads, v, d) && '\n' !in d && forall c :: c in d ==> !IsDigit(c)
    ensures var ts := Tokens(Row(LabelledCells(head, pads, v), ""), d);
            |ts| == 1 + |v| && ts[0] == head && forall i :: 0 <= i < |v| ==> StrToUL(ts[i + 1]) == v[i]
  {
    hide StrToUL, Readable, Tokens, Free;
    var cs := LabelledCells(head, pads, v);
    LabelledReadable(head, pads, v, d);
    RowRoundTrip(cs, "", d);
    assert Words(cs)[0] == cs[0].word;
    forall i | 0 <= i < |v| ensures StrToUL(Words(cs)[i + 1]) == v[i] {
      assert Words(cs)[i + 1] == cs[i + 1].word;
    }
  }
}
