/** strtok: what it computes on text, and the stateful, destructive way it computes it. */
module Tokenizer {
  import opened CText

  /** s without its leading delimiters. */
  function Skip(s: string, d: set<char>): string {
    s[Span(s, d)..]
  }

  /** The next token of s, empty exactly when there is none. */
  function Head(s: string, d: set<char>): (w: string)
    ensures w == [] <==> Skip(s, d) == []
  {
    Skip(s, d)[..CSpan(Skip(s, d), d)]
  }

  /** The text the next call scans: past the token and the one delimiter that ended it. */
  function Tail(s: string, d: set<char>): (t: string)
    ensures |t| <= |s|
    ensures s != [] ==> |t| < |s|
  {
    var u := Skip(s, d);
    var n := CSpan(u, d);
    if n < |u| then u[n + 1..] else []
  }

  /** Every token of s. */
  function Tokens(s: string, d: set<char>): seq<string>
    decreases |s|
  {
    if Skip(s, d) == [] then [] else [Head(s, d)] + Tokens(Tail(s, d), d)
  }

  /** The tokens depend on what is left after the leading delimiters only. */
  lemma SameSkip(s: string, t: string, d: set<char>)
    requires Skip(s, d) == Skip(t, d)
    ensures Head(s, d) == Head(t, d) && Tail(s, d) == Tail(t, d) && Tokens(s, d) == Tokens(t, d)
  {
  }

  lemma SkipOne(s: string, d: set<char>)
    requires s != [] && s[0] in d
    ensures Skip(s, d) == Skip(s[1..], d)
  {
    var k := Span(s[1..], d);
    assert s[1..][k..] == s[1 + k..];
  }

  /** Dropping a leading delimiter changes no token. */
  lemma DropDelimiter(s: string, d: set<char>)
    requires s != [] && s[0] in d
    ensures Tokens(s, d) == Tokens(s[1..], d)
  {
    SkipOne(s, d);
    SameSkip(s, s[1..], d);
  }

  lemma TokensStep(s: string, d: set<char>)
    requires s != [] && s[0] !in d
    ensures var n := CSpan(s, d);
            && n > 0 && Head(s, d) == s[..n]
            && Tokens(s, d) == [s[..n]] + Tokens(if n < |s| then s[n + 1..] else [], d)
  {
    SpanIs(s, d, 0);
    assert Skip(s, d) == s;
  }

  lemma NoTokens(pad: string, d: set<char>)
    requires Only(pad, d)
    ensures Tokens(pad, d) == []
  {
    assert pad[..|pad|] == pad;
    SpanIs(pad, d, |pad|);
  }

  /** The tokens are the fields between single delimiters, empty fields dropped. */
  lemma {:induction false} TokensAreFields(s: string, d: set<char>)
    ensures Tokens(s, d) == Filter(Split(s, d), (f: string) => f != [])
    decreases |s|
  {
    var p := (f: string) => f != [];
    var n := CSpan(s, d);
    if n == |s| {
      assert Filter([s], p) == if p(s) then [s] + Filter([], p) else Filter([], p);
      if s == [] {
        NoTokens(s, d);
      } else {
        TokensStep(s, d);
        assert s[..|s|] == s;
        NoTokens([], d);
      }
    } else {
      var fs := Split(s[n + 1..], d);
      TokensAreFields(s[n + 1..], d);
      FilterSplit([s[..n]], fs, p);
      assert Filter([s[..n]], p) == if n > 0 then [s[..n]] else [];
      if n == 0 {
        DropDelimiter(s, d);
      } else {
        TokensStep(s, d);
      }
    }
  }

  /** One call on blanks, a word, a delimiter, and the rest. */
  lemma NextWord(pad: string, w: string, c: char, rest: string, d: set<char>)
    requires Only(pad, d) && w != [] && Free(w, d) && c in d
    ensures Head(pad + w + [c] + rest, d) == w
    ensures Tail(pad + w + [c] + rest, d) == rest
    ensures Tokens(pad + w + [c] + rest, d) == [w] + Tokens(rest, d)
  {
    var s := pad + w + [c] + rest;
    assert s[..|pad|] == pad && s[|pad|] == w[0];
    SpanIs(s, d, |pad|);
    var u := Skip(s, d);
    assert u == w + [c] + rest && u[..|w|] == w;
    CSpanIs(u, d, |w|);
    assert u[|w| + 1..] == rest;
  }

  lemma LastWord(pad: string, w: string, d: set<char>)
    requires Only(pad, d) && w != [] && Free(w, d)
    ensures Head(pad + w, d) == w && Tail(pad + w, d) == []
    ensures Tokens(pad + w, d) == [w]
  {
    var s := pad + w;
    assert s[..|pad|] == pad && s[|pad|] == w[0];
    SpanIs(s, d, |pad|);
    var u := Skip(s, d);
    assert u == w && u[..|w|] == w;
    CSpanIs(u, d, |w|);
    SpanIs([], d, 0);
  }

  /** A column of a table: padding, then a word. */
  datatype Cell = Cell(pad: string, word: string)

  function Words(cells: seq<Cell>): (ws: seq<string>)
    ensures |ws| == |cells| && forall i :: 0 <= i < |cells| ==> ws[i] == cells[i].word
  {
    seq(|cells|, i requires 0 <= i < |cells| => cells[i].word)
  }

  function Row(cells: seq<Cell>, end: string): string {
    if cells == [] then end else cells[0].pad + cells[0].word + Row(cells[1..], end)
  }

  /** Cells a reader can tell apart: words without delimiters, at least one blank between two. */
  predicate Readable(cells: seq<Cell>, d: set<char>) {
    && (forall i :: 0 <= i < |cells| ==> Only(cells[i].pad, d) && cells[i].word != [] && Free(cells[i].word, d))
    && (forall i :: 1 <= i < |cells| ==> cells[i].pad != [])
  }

  /** Tokenising a printed row gives its words back, however it is padded. */
  lemma {:induction false} RowRoundTrip(cells: seq<Cell>, end: string, d: set<char>)
    requires Readable(cells, d) && Only(end, d)
    ensures Tokens(Row(cells, end), d) == Words(cells)
    decreases |cells|
  {
    hide Tokens;
    if cells == [] {
      NoTokens(end, d);
    } else {
      assert Readable(cells[1..], d) by {
        assert forall i :: 0 <= i < |cells[1..]| ==> cells[1..][i] == cells[i + 1];
      }
      RowRoundTrip(cells[1..], end, d);
      RowStep(cells, end, d);
      assert Words(cells) == [cells[0].word] + Words(cells[1..]);
    }
  }

  lemma RowStep(cells: seq<Cell>, end: string, d: set<char>)
    requires cells != [] && Readable(cells, d) && Only(end, d) && Readable(cells[1..], d)
    ensures Tokens(Row(cells, end), d) == [cells[0].word] + Tokens(Row(cells[1..], end), d)
  {
    var rest := Row(cells[1..], end);
    if rest != [] {
      RowStartsBlank(cells[1..], end, d);
    }
    WordThen(cells[0].pad, cells[0].word, rest, d);
  }

  lemma WordThen(pad: string, w: string, rest: string, d: set<char>)
    requires Only(pad, d) && w != [] && Free(w, d)
    requires rest != [] ==> rest[0] in d
    ensures Tokens(pad + w + rest, d) == [w] + Tokens(rest, d)
  {
    if rest == [] {
      assert pad + w + rest == pad + w;
      LastWord(pad, w, d);
      NoTokens(rest, d);
    } else {
      assert pad + w + rest == pad + w + [rest[0]] + rest[1..];
      NextWord(pad, w, rest[0], rest[1..], d);
      DropDelimiter(rest, d);
    }
  }

  lemma RowStartsBlank(cells: seq<Cell>, end: string, d: set<char>)
    requires Readable(cells, d) && Only(end, d)
    requires cells != [] ==> cells[0].pad != []
    requires Row(cells, end) != []
    ensures Row(cells, end)[0] in d
  {
    if cells != [] {
      assert Row(cells, end)[0] == cells[0].pad[0];
    }
  }

  /** strtok's hidden state over the line it was last given. */
  class Strtok {
    const buf: array<char>
    var save: nat
    ghost var text: string  // what is still to be scanned

    ghost predicate Valid()
      reads this, buf
    {
      Str(buf, save, text)
    }

    /** The first strtok(line, ...) call: scanning starts at the beginning of line. */
    constructor (line: array<char>, ghost s: string)
      requires Str(line, 0, s)
      ensures buf == line && text == s && Valid()
    {
      buf, save, text := line, 0, s;
    }

    /** strtok(NULL, d): the start of the next token, which it terminates in place. */
    method Next(d: set<char>) returns (tok: Option<nat>)
      requires Valid()
      modifies buf, `save, `text
      ensures Valid() && text == Tail(old(text), d)
      ensures tok.None? <==> Head(old(text), d) == []
      ensures tok.Some? ==> Str(buf, tok.value, Head(old(text), d))
      ensures forall i :: 0 <= i < buf.Length ==> buf[i] == old(buf[i]) || (old(save) <= i == save - 1 && buf[i] == '\0')
    {
      hide Head, Tail;
      ghost var s, from := text, save;
      var b, e := Scan(buf, save, d, s);
      if buf[e] == '\0' {
        save, text := e, [];
        if b == e {
          return None;
        }
      } else {
        Cut(buf, from, s, b, e);
        save, text := e + 1, s[e + 1 - from..];
      }
      tok := Some(b);
    }

    /** k calls with delimiters d have been made on a text with tokens ts. */
    ghost predicate Left(d: set<char>, ts: seq<string>, k: nat)
      reads this, buf
    {
      Valid() && Tokens(text, d) == From(ts, k)
    }

    /** Call number k of strtok(NULL, d) on a text with tokens ts: the text of token k, or NULL past
        the end. */
    method Token(d: set<char>, ghost ts: seq<string>, ghost k: nat) returns (w: Option<string>)
      requires Left(d, ts, k)
      modifies buf, `save, `text
      ensures Left(d, ts, k + 1) && w == Pick(ts, k)
    {
      hide Head, Tail, Tokens;
      Step(text, d, ts, k);
      var tok := Next(d);
      if tok.None? {
        return None;
      }
      ReadStrIs(buf, tok.value, ts[k]);
      w := Some(ReadStr(buf, tok.value));
    }

    /** The same where there is a token to be read. */
    method Word(d: set<char>, ghost ts: seq<string>, ghost k: nat) returns (w: string)
      requires Left(d, ts, k) && k < |ts|
      modifies buf, `save, `text
      ensures w == ts[k] && Left(d, ts, k + 1)
    {
      var tok := Token(d, ts, k);
      w := tok.value;
    }
  }

  /** Where the next token of the string s at from starts and ends. */
  method Scan(buf: array<char>, from: nat, d: set<char>, ghost s: string) returns (b: nat, e: nat)
    requires Str(buf, from, s)
    ensures from <= b <= e <= from + |s|
    ensures if e < from + |s| then b < e && buf[e] != '\0' else buf[e] == '\0'
    ensures Head(s, d) == s[b - from..e - from]
    ensures Tail(s, d) == if e < from + |s| then s[e + 1 - from..] else []
  {
    hide Head, Tail;
    b := from;
    while buf[b] != '\0' && buf[b] in d
      invariant from <= b <= from + |s|
      invariant forall j :: 0 <= j < b - from ==> s[j] in d
      decreases from + |s| - b
    {
      b := b + 1;
    }
    e := b;
    while buf[e] != '\0' && buf[e] !in d
      invariant b <= e <= from + |s|
      invariant forall j :: b - from <= j < e - from ==> s[j] !in d
      decreases from + |s| - e
    {
      e := e + 1;
    }
    Scanned(s, b - from, e - from, d);
  }

  /** *end = '\0' inside the string s at from: the token from b on, and the rest after it. */
  method Cut(buf: array<char>, ghost from: nat, ghost s: string, ghost b: nat, e: nat)
    requires Str(buf, from, s) && from <= b <= e < from + |s|
    modifies buf
    ensures Str(buf, b, s[b - from..e - from]) && Str(buf, e + 1, s[e + 1 - from..])
    ensures buf[e] == '\0' && forall i :: 0 <= i < buf.Length && i != e ==> buf[i] == old(buf[i])
  {
    buf[e] := '\0';
  }

  /** Two character scans over a C string compute its Head and Tail. */
  lemma Scanned(s: string, b: nat, e: nat, d: set<char>)
    requires b <= e <= |s|
    requires forall i :: 0 <= i < b ==> s[i] in d
    requires b < |s| ==> s[b] !in d
    requires forall i :: b <= i < e ==> s[i] !in d
    requires e < |s| ==> s[e] in d
    ensures Head(s, d) == s[b..e]
    ensures Tail(s, d) == if e < |s| then s[e + 1..] else []
  {
    SpanIs(s, d, b);
    var u := s[b..];
    CSpanIs(u, d, e - b);
    assert u[..e - b] == s[b..e];
    assert e < |s| ==> u[e - b + 1..] == s[e + 1..];
  }

  /** One strtok call takes token k and leaves the later ones. */
  lemma Step(s: string, d: set<char>, ts: seq<string>, k: nat)
    requires Tokens(s, d) == From(ts, k)
    ensures Head(s, d) != [] <==> k < |ts|
    ensures k < |ts| ==> Head(s, d) == ts[k]
    ensures Tokens(Tail(s, d), d) == From(ts, k + 1)
  {
    if Head(s, d) == [] {
      assert CSpan([], d) == 0;
      NoTokens([], d);
    } else {
      assert From(ts, k)[0] == ts[k] && From(ts, k)[1..] == From(ts, k + 1);
    }
  }
}
