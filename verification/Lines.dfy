/** Text files read through bounded fgets. */
module Lines {
  import opened CText

  /** What one fgets(buf, m + 1, fp) takes from the unread text s: up to and including the first
      newline, at most m characters. */
  function Chunk(s: string, m: nat): (c: string)
    ensures c <= s && |c| <= m
    ensures m >= 1 && s != [] ==> c != []
  {
    var n := CSpan(s, {'\n'});
    s[..Min(m, Min(n + 1, |s|))]
  }

  function Min(a: nat, b: nat): nat {
    if a <= b then a else b
  }

  /** Every chunk a loop over fgets with limit m takes from s. */
  function Chunks(s: string, m: nat): seq<string>
    requires m >= 1
    decreases |s|
  {
    if s == [] then [] else [Chunk(s, m)] + Chunks(s[|Chunk(s, m)|..], m)
  }

  /** The C strings such a loop sees: a NUL byte in the file hides the rest of its chunk. */
  function Reads(s: string, m: nat): seq<string>
    requires m >= 1
    decreases |s|
  {
    if s == [] then [] else [CStr(Chunk(s, m))] + Reads(s[|Chunk(s, m)|..], m)
  }

  /** The lines of a text, each with its newline if it has one. */
  function TextLines(s: string): seq<string>
    decreases |s|
  {
    if s == [] then []
    else
      var n := Min(CSpan(s, {'\n'}) + 1, |s|);
      [s[..n]] + TextLines(s[n..])
  }

  predicate Within(ls: seq<string>, m: nat) {
    forall i :: 0 <= i < |ls| ==> |ls[i]| <= m
  }

  /** Chunking loses nothing: the chunks laid end to end are the file. */
  lemma {:induction false} ChunksConcat(s: string, m: nat)
    requires m >= 1
    ensures Flatten(Chunks(s, m)) == s
    decreases |s|
  {
    hide Chunk, Flatten;
    if s == [] {
      FlattenCons([], []);
    } else {
      var c := Chunk(s, m);
      ChunksConcat(s[|c|..], m);
      FlattenCons(c, Chunks(s[|c|..], m));
    }
  }

  lemma FlattenCons(l: string, ls: seq<string>)
    ensures Flatten([l] + ls) == l + Flatten(ls)
    ensures Flatten<char>([]) == []
  {
    assert ([l] + ls)[1..] == ls;
  }

  /** The chunks are exactly the lines if and only if every line fits. */
  lemma {:induction false} ChunksAreLines(s: string, m: nat)
    requires m >= 1
    ensures Chunks(s, m) == TextLines(s) <==> Within(TextLines(s), m)
    decreases |s|
  {
    if s != [] {
      var n := Min(CSpan(s, {'\n'}) + 1, |s|);
      assert TextLines(s)[0] == s[..n] && TextLines(s)[1..] == TextLines(s[n..]);
      assert Chunks(s, m)[0] == Chunk(s, m);
      if n <= m {
        assert Chunk(s, m) == s[..n];
        assert Chunks(s, m)[1..] == Chunks(s[n..], m);
        ChunksAreLines(s[n..], m);
        assert forall i :: 0 <= i < |TextLines(s[n..])| ==> TextLines(s[n..])[i] == TextLines(s)[i + 1];
      } else {
        assert |Chunk(s, m)| <= m < |TextLines(s)[0]|;
      }
    }
  }

  lemma {:induction false} ReadsAreChunks(s: string, m: nat)
    requires m >= 1 && NoNul(s)
    ensures Reads(s, m) == Chunks(s, m)
    decreases |s|
  {
    if s != [] {
      CStrWhole(Chunk(s, m));
      ReadsAreChunks(s[|Chunk(s, m)|..], m);
    }
  }

  /** For a file without NUL bytes whose lines fit, the fgets loop sees its lines. */
  lemma ReadsAreLines(s: string, m: nat)
    requires m >= 1 && NoNul(s) && Within(TextLines(s), m)
    ensures Reads(s, m) == TextLines(s)
  {
    ReadsAreChunks(s, m);
    ChunksAreLines(s, m);
  }

  predicate IsLine(l: string) {
    l != [] && l[|l| - 1] == '\n' && Free(l[..|l| - 1], {'\n'})
  }

  /** Lines in front of a file are read first, whatever follows them. */
  lemma {:induction false} ReadsOfPrefix(ls: seq<string>, tail: string, m: nat)
    requires m >= 1
    requires forall i :: 0 <= i < |ls| ==> IsLine(ls[i]) && NoNul(ls[i]) && |ls[i]| <= m
    ensures Reads(Flatten(ls) + tail, m) == ls + Reads(tail, m)
  {
    hide Reads, IsLine, NoNul, Flatten;
    FlattenStep(ls, tail);
    if ls != [] {
      var rest := ls[1..];
      ReadsOneLine(ls[0], Flatten(rest) + tail, m);
      ReadsOfPrefix(rest, tail, m);
      Prepended(ls, Reads(tail, m));
    }
  }

  lemma FlattenStep(ls: seq<string>, tail: string)
    ensures Flatten(ls) + tail == if ls == [] then tail else ls[0] + (Flatten(ls[1..]) + tail)
  {
  }

  lemma Prepended(ls: seq<string>, more: seq<string>)
    requires ls != []
    ensures [ls[0]] + (ls[1..] + more) == ls + more
  {
  }

  lemma ReadsOneLine(l: string, rest: string, m: nat)
    requires m >= 1 && IsLine(l) && NoNul(l) && |l| <= m
    ensures Reads(l + rest, m) == [l] + Reads(rest, m)
  {
    var s := l + rest;
    assert s[..|l| - 1] == l[..|l| - 1] && s[..|l|] == l && s[|l|..] == rest;
    CSpanIs(s, {'\n'}, |l| - 1);
    CStrWhole(l);
  }

  /** The file made of the given lines reads back as them under every limit they respect. */
  lemma ReadsOfLines(ls: seq<string>, m: nat)
    requires m >= 1
    requires forall i :: 0 <= i < |ls| ==> IsLine(ls[i]) && NoNul(ls[i]) && |ls[i]| <= m
    ensures Reads(Flatten(ls), m) == ls
  {
    ReadsOfPrefix(ls, [], m);
    assert Flatten(ls) + [] == Flatten(ls);
  }

  /** The first thing read from a file is a prefix of it. */
  lemma FirstRead(s: string, m: nat)
    requires m >= 1 && s != []
    ensures Reads(s, m) != [] && Reads(s, m)[0] <= s
  {
  }

  /** A beginning without newline or NUL that fits is read whole, and what follows it as far as the
      limit then allows. */
  lemma ReadsFrom(head: string, t: string, m: nat)
    requires m >= 1 && head != [] && Free(head, {'\n'}) && NoNul(head) && |head| <= m
    ensures Reads(head + t, m) != [] && Reads(head + t, m)[0] == head + CStr(Chunk(t, m - |head|))
  {
    hide CStr, Chunk;
    ChunkFrom(head, t, m);
    CStrFrom(head, Chunk(t, m - |head|));
  }

  lemma ChunkFrom(head: string, t: string, m: nat)
    requires Free(head, {'\n'}) && |head| <= m
    ensures Chunk(head + t, m) == head + Chunk(t, m - |head|)
  {
    var s, n := head + t, CSpan(t, {'\n'});
    assert Free(s[..|head| + n], {'\n'}) by {
      assert s[..|head| + n] == head + t[..n];
    }
    CSpanIs(s, {'\n'}, |head| + n);
  }

  lemma CStrFrom(head: string, c: string)
    requires NoNul(head)
    ensures CStr(head + c) == head + CStr(c)
  {
    var s, n := head + c, CSpan(c, {'\0'});
    assert s[..|head| + n] == head + c[..n];
    CSpanIs(s, {'\0'}, |head| + n);
  }

  /** A line longer than the limit is read in pieces. */
  lemma TwoReads(head: string, l: string, m: nat)
    requires m >= 1 && |head| == m && Free(head, {'\n'}) && NoNul(head)
    requires IsLine(l) && NoNul(l) && |l| <= m
    ensures Reads(head + l, m) == [head, l]
  {
    hide CStr, Chunk, IsLine;
    ChunkFrom(head, l, m);
    assert Chunk(l, 0) == [];
    CStrWhole(head);
    ReadsOneLine(l, [], m);
    assert l + [] == l && head + [] == head && (head + l)[m..] == l;
    assert Reads([], m) == [];
  }

  /** One read covers the word a if and only if a is within the limit and has no newline before its
      last character. */
  lemma ReadCovers(a: string, rest: string, m: nat)
    requires NoNul(a)
    ensures var x := CStr(Chunk(a + rest, m));
            && x <= a + rest
            && (|x| >= |a| <==> |a| <= m && forall i :: 0 <= i < |a| - 1 ==> a[i] != '\n')
  {
    hide CStr;
    var s := a + rest;
    var c, n := Chunk(s, m), CSpan(s, {'\n'});
    assert forall i :: 0 <= i < |a| ==> s[i] == a[i];
    CStrReaches(c, s, a);
    if n < |a| - 1 {
      assert a[n] == '\n';
    }
  }

  lemma CStrReaches(c: string, s: string, a: string)
    requires c <= s && a <= s && NoNul(a)
    ensures CStr(c) <= s && (|CStr(c)| >= |a| <==> |c| >= |a|)
  {
    assert forall i :: 0 <= i < |c| && i < |a| ==> c[i] == s[i] == a[i];
  }

  /** An open file: its text and the read position. */
  class Stream {
    const text: string
    var pos: nat

    ghost predicate Valid()
      reads this
    {
      pos <= |text|
    }

    ghost function Rest(): string
      reads this
      requires Valid()
    {
      text[pos..]
    }

    constructor (text: string)
      ensures Valid() && Rest() == text
    {
      this.text := text;
      pos := 0;
    }

    /** fgets(buf, m + 1, this). */
    method Fgets(buf: array<char>, m: nat) returns (ok: bool)
      requires Valid() && 1 <= m < buf.Length
      modifies `pos, buf
      ensures Valid()
      ensures ok <==> old(Rest()) != []
      ensures !ok ==> Rest() == []
      ensures ok ==> var c := Chunk(old(Rest()), m);
                     && Rest() == old(Rest())[|c|..]
                     && (forall i :: 0 <= i < |c| ==> buf[i] == c[i])
                     && Str(buf, 0, CStr(c))
      ensures var n := if ok then |Chunk(old(Rest()), m)| + 1 else 0;
              forall i :: n <= i < buf.Length ==> buf[i] == old(buf[i])
    {
      ghost var s := Rest();
      if pos == |text| {
        return false;
      }
      var n := 0;
      while n < m && pos < |text| && (n == 0 || buf[n - 1] != '\n')
        invariant n <= m && n <= |s| && pos == old(pos) + n <= |text|
        invariant forall i :: 0 <= i < n ==> buf[i] == s[i]
        invariant forall i :: n <= i < buf.Length ==> buf[i] == old(buf[i])
        invariant forall i :: 0 <= i < n - 1 ==> s[i] != '\n'
        decreases m - n
      {
        assert text[pos] == s[n];
        buf[n] := text[pos];
        pos, n := pos + 1, n + 1;
      }
      ChunkIs(s, m, n);
      buf[n] := '\0';
      ok := true;
    }

    /** k rounds of a loop over fgets with limit m have been done, on a file read as ls. */
    ghost predicate LinesLeft(m: nat, ls: seq<string>, k: nat)
      reads this
      requires m >= 1
    {
      Valid() && Reads(Rest(), m) == From(ls, k)
    }

    /** Round k of while (fgets(buf, m + 1, this) != NULL). */
    method NextLine(buf: array<char>, m: nat, ghost ls: seq<string>, ghost k: nat) returns (more: bool)
      requires 1 <= m < buf.Length && LinesLeft(m, ls, k)
      modifies `pos, buf
      ensures LinesLeft(m, ls, k + 1)
      ensures more <==> k < |ls|
      ensures more ==> Str(buf, 0, ls[k]) && pos > old(pos)
    {
      Advance(Rest(), m, ls, k);
      more := Fgets(buf, m);
    }
  }

  lemma ChunkIs(s: string, m: nat, n: nat)
    requires 1 <= n <= m && n <= |s|
    requires forall i :: 0 <= i < n - 1 ==> s[i] != '\n'
    requires n == m || n == |s| || s[n - 1] == '\n'
    ensures Chunk(s, m) == s[..n]
  {
  }

  /** One fgets takes line k of what the loop reads. */
  lemma Advance(s: string, m: nat, ls: seq<string>, k: nat)
    requires m >= 1 && Reads(s, m) == From(ls, k)
    ensures s != [] <==> k < |ls|
    ensures s == [] ==> From(ls, k + 1) == []
    ensures s != [] ==> ls[k] == CStr(Chunk(s, m)) && Reads(s[|Chunk(s, m)|..], m) == From(ls, k + 1)
  {
    if s != [] {
      assert From(ls, k)[0] == ls[k] && From(ls, k)[1..] == From(ls, k + 1);
    }
  }
}
