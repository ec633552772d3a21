/** C strings and the string primitives every parser of the library leans on. */
module CText {

  datatype Option<+T> = None | Some(value: T)

  /** Length of the longest prefix of s without a character of d (strcspn). */
  function CSpan(s: string, d: set<char>): (n: nat)
    ensures n <= |s|
    ensures forall i :: 0 <= i < n ==> s[i] !in d
    ensures n < |s| ==> s[n] in d
  {
    if s == [] || s[0] in d then 0 else 1 + CSpan(s[1..], d)
  }

  /** Length of the longest prefix of s made of characters of d only (strspn). */
  function Span(s: string, d: set<char>): (n: nat)
    ensures n <= |s|
    ensures forall i :: 0 <= i < n ==> s[i] in d
    ensures n < |s| ==> s[n] !in d
  {
    if s == [] || s[0] !in d then 0 else 1 + Span(s[1..], d)
  }

  /** The C string stored at the start of the bytes s: everything before the first NUL. */
  function CStr(s: string): (r: string)
    ensures NoNul(r) && |r| <= |s| && r == s[..|r|]
    ensures |r| < |s| ==> s[|r|] == '\0'
  {
    s[..CSpan(s, {'\0'})]
  }

  /** Whether s holds nothing but C-string characters. */
  predicate NoNul(s: string) {
    forall i :: 0 <= i < |s| ==> s[i] != '\0'
  }

  /** No character of d occurs in s. */
  predicate Free(s: string, d: set<char>) {
    forall i :: 0 <= i < |s| ==> s[i] !in d
  }

  /** Every character of s is one of d. */
  predicate Only(s: string, d: set<char>) {
    forall i :: 0 <= i < |s| ==> s[i] in d
  }

  /** A span is fixed by what it stops at. */
  lemma CSpanIs(s: string, d: set<char>, n: nat)
    requires n <= |s| && Free(s[..n], d)
    requires n < |s| ==> s[n] in d
    ensures CSpan(s, d) == n
  {
    assert forall i :: 0 <= i < n ==> s[i] == s[..n][i];
  }

  lemma SpanIs(s: string, d: set<char>, n: nat)
    requires n <= |s| && Only(s[..n], d)
    requires n < |s| ==> s[n] !in d
    ensures Span(s, d) == n
  {
    assert forall i :: 0 <= i < n ==> s[i] == s[..n][i];
  }

  /** The C string at buf + p is s. */
  ghost predicate Str(buf: array<char>, p: nat, s: string)
    reads buf
  {
    && p + |s| < buf.Length && buf[p + |s|] == '\0'
    && (forall i :: 0 <= i < |s| ==> s[i] != '\0')
    && forall i :: p <= i < p + |s| ==> buf[i] == s[i - p]
  }

  /** The characters from buf + p up to a NUL. */
  function ReadStr(buf: array<char>, p: nat): string
    requires p <= buf.Length
    reads buf
    decreases buf.Length - p
  {
    if p == buf.Length || buf[p] == '\0' then [] else [buf[p]] + ReadStr(buf, p + 1)
  }

  lemma {:induction false} ReadStrIs(buf: array<char>, p: nat, s: string)
    requires Str(buf, p, s)
    ensures ReadStr(buf, p) == s
    decreases |s|
  {
    if s != [] {
      assert buf[p] == s[p - p];
      ReadStrIs(buf, p + 1, s[1..]);
    }
  }

  lemma CStrWhole(s: string)
    requires NoNul(s)
    ensures CStr(s) == s
  {
    assert s[..|s|] == s;
    CSpanIs(s, {'\0'}, |s|);
  }

  /** ts without its first k elements. */
  function From<T>(ts: seq<T>, k: nat): seq<T> {
    if k == 0 then ts else if k <= |ts| then ts[k..] else []
  }

  /** Element k, if there is one. */
  function Pick<T>(ts: seq<T>, k: nat): Option<T> {
    if k < |ts| then Some(ts[k]) else None
  }

  function Flatten<T>(ss: seq<seq<T>>): seq<T> {
    if ss == [] then [] else ss[0] + Flatten(ss[1..])
  }

  /** The words of ws with one sep between neighbours. */
  function Join(ws: seq<string>, sep: char): string {
    if ws == [] then [] else if |ws| == 1 then ws[0] else ws[0] + [sep] + Join(ws[1..], sep)
  }

  /** The fields of s between separators, empty ones kept. */
  function Split(s: string, d: set<char>): (r: seq<string>)
    ensures |r| >= 1
    decreases |s|
  {
    var n := CSpan(s, d);
    if n == |s| then [s] else [s[..n]] + Split(s[n + 1..], d)
  }

  lemma {:induction false} SplitJoin(ws: seq<string>, sep: char)
    requires ws != []
    requires forall i :: 0 <= i < |ws| ==> Free(ws[i], {sep})
    ensures Split(Join(ws, sep), {sep}) == ws
  {
    var s := Join(ws, sep);
    if |ws| == 1 {
      CSpanIs(s, {sep}, |s|);
    } else {
      assert s[..|ws[0]|] == ws[0];
      CSpanIs(s, {sep}, |ws[0]|);
      assert s[|ws[0]| + 1..] == Join(ws[1..], sep);
      SplitJoin(ws[1..], sep);
    }
  }

  /** tolower of the "C" locale. */
  function Lower(c: char): char {
    if 'A' <= c <= 'Z' then c - 'A' + 'a' else c
  }

  /** Two characters are the same but for case: equal, or the two cases of one of the 26 letters, which
      are 32 apart in ASCII. */
  lemma LowerMeaning(c: char, d: char)
    ensures Lower(c) == Lower(d)
       <==> || c == d
            || ('A' <= c <= 'Z' && d as int == c as int + 32)
            || ('A' <= d <= 'Z' && c as int == d as int + 32)
  {
  }

  /** strncasecmp(s, p, strlen(p)) == 0. */
  predicate HasPrefixNoCase(s: string, p: string) {
    |p| <= |s| && forall i :: 0 <= i < |p| ==> Lower(s[i]) == Lower(p[i])
  }

  /** The elements of xs that satisfy p, in order. */
  function Filter<T(!new)>(xs: seq<T>, p: T -> bool): (r: seq<T>)
    ensures |r| <= |xs|
    ensures forall x :: x in r <==> x in xs && p(x)
  {
    if xs == [] then []
    else if p(xs[0]) then [xs[0]] + Filter(xs[1..], p) else Filter(xs[1..], p)
  }

  lemma {:induction false} FilterSplit<T(!new)>(a: seq<T>, b: seq<T>, p: T -> bool)
    ensures Filter(a + b, p) == Filter(a, p) + Filter(b, p)
  {
    if a == [] {
      assert a + b == b;
    } else {
      assert (a + b)[0] == a[0] && (a + b)[1..] == a[1..] + b;
      FilterSplit(a[1..], b, p);
    }
  }

  lemma {:induction false} FilterSame<T(!new)>(xs: seq<T>, p: T -> bool, q: T -> bool)
    requires forall x :: x in xs ==> (p(x) <==> q(x))
    ensures Filter(xs, p) == Filter(xs, q)
  {
    if xs != [] {
      FilterSame(xs[1..], p, q);
    }
  }

  lemma FilterLast<T(!new)>(xs: seq<T>, p: T -> bool)
    requires xs != []
    ensures var init, last := xs[..|xs| - 1], xs[|xs| - 1];
            Filter(xs, p) == if p(last) then Filter(init, p) + [last] else Filter(init, p)
  {
    var init, last := xs[..|xs| - 1], xs[|xs| - 1];
    assert xs == init + [last];
    FilterSplit(init, [last], p);
    assert [last][1..] == [];
    assert Filter([last], p) == if p(last) then [last] else [];
  }

  /** strncmp(line, key, strlen(key)) == 0. */
  method StartsWith(line: array<char>, key: string, ghost s: string) returns (b: bool)
    requires Str(line, 0, s) && NoNul(key)
    ensures b <==> key <= s
  {
    var i := 0;
    while i < |key|
      invariant i <= |key| && i <= |s| && key[..i] == s[..i]
    {
      assert key[i] != '\0';
      if line[i] != key[i] {
        assert i < |s| ==> line[i] == s[i - 0];
        return false;
      }
      assert line[i] == s[i - 0];
      i := i + 1;
    }
    b := true;
  }
}
