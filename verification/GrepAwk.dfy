/** grep_awk: field n of the first line that starts with a prefix and has such a field. */
module GrepAwk {
  import opened CText
  import opened Lines
  import opened Tokenizer

  /** Line l answers the query: right prefix, and more than n tokens. */
  predicate Answers(l: string, prefix: string, n: nat, d: set<char>) {
    HasPrefixNoCase(l, prefix) && |Tokens(l, d)| > n
  }

  function FirstField(ls: seq<string>, prefix: string, n: nat, d: set<char>): Option<string> {
    if ls == [] then None
    else if Answers(ls[0], prefix, n, d) then Pick(Tokens(ls[0], d), n)
    else FirstField(ls[1..], prefix, n, d)
  }

  /** Index k holds the first answering line. */
  ghost predicate FirstAnswer(ls: seq<string>, k: nat, prefix: string, n: nat, d: set<char>) {
    && k < |ls| && Answers(ls[k], prefix, n, d)
    && forall j :: 0 <= j < k ==> !Answers(ls[j], prefix, n, d)
  }

  lemma AnswerIsSome(l: string, prefix: string, n: nat, d: set<char>)
    requires Answers(l, prefix, n, d)
    ensures Pick(Tokens(l, d), n).Some?
  {
    hide Tokens;
  }

  lemma {:induction false} NoAnswer(ls: seq<string>, prefix: string, n: nat, d: set<char>)
    ensures FirstField(ls, prefix, n, d) == None
       <==> forall j :: 0 <= j < |ls| ==> !Answers(ls[j], prefix, n, d)
  {
    hide Answers, Tokens, Pick;
    if ls != [] {
      if Answers(ls[0], prefix, n, d) {
        AnswerIsSome(ls[0], prefix, n, d);
      } else {
        NoAnswer(ls[1..], prefix, n, d);
        assert forall j :: 1 <= j < |ls| ==> ls[j] == ls[1..][j - 1];
      }
    }
  }

  lemma {:induction false} AnswerAt(ls: seq<string>, k: nat, prefix: string, n: nat, d: set<char>)
    requires FirstAnswer(ls, k, prefix, n, d)
    ensures FirstField(ls, prefix, n, d) == Pick(Tokens(ls[k], d), n)
  {
    hide Answers, Tokens, Pick;
    if k > 0 {
      assert forall j :: 0 <= j < k - 1 ==> ls[1..][j] == ls[j + 1];
      AnswerAt(ls[1..], k - 1, prefix, n, d);
    }
  }

  /** The result is token n (the first one is token 0) of the first line that has the prefix, whatever the
      case of its letters, and more than n tokens; it is NULL if and only if there is no such line. */
  lemma {:induction false} FirstFieldMeaning(ls: seq<string>, prefix: string, n: nat, d: set<char>)
    ensures FirstField(ls, prefix, n, d) == None
       <==> forall j :: 0 <= j < |ls| ==> !(HasPrefixNoCase(ls[j], prefix) && |Tokens(ls[j], d)| > n)
    ensures forall k :: && 0 <= k < |ls| && HasPrefixNoCase(ls[k], prefix) && |Tokens(ls[k], d)| > n
                        && (forall j :: 0 <= j < k ==> !(HasPrefixNoCase(ls[j], prefix) && |Tokens(ls[j], d)| > n))
                    ==> FirstField(ls, prefix, n, d) == Some(Tokens(ls[k], d)[n])
  {
    hide Tokens, FirstField, HasPrefixNoCase;
    NoAnswer(ls, prefix, n, d);
    forall k | && 0 <= k < |ls| && HasPrefixNoCase(ls[k], prefix) && |Tokens(ls[k], d)| > n
               && (forall j :: 0 <= j < k ==> !(HasPrefixNoCase(ls[j], prefix) && |Tokens(ls[j], d)| > n))
      ensures FirstField(ls, prefix, n, d) == Some(Tokens(ls[k], d)[n])
    {
      assert forall j :: 0 <= j < k ==> !Answers(ls[j], prefix, n, d);
      AnswerAt(ls, k, prefix, n, d);
    }
  }

  /** A line has the prefix when it is long enough and each character is that of the prefix, or the other
      case of the same letter, 32 apart in ASCII. */
  lemma PrefixMeaning(s: string, p: string)
    ensures HasPrefixNoCase(s, p)
       <==> && |p| <= |s|
            && forall i :: 0 <= i < |p| ==>
                 || s[i] == p[i]
                 || ('A' <= s[i] <= 'Z' && p[i] as int == s[i] as int + 32)
                 || ('A' <= p[i] <= 'Z' && s[i] as int == p[i] as int + 32)
  {
    hide Lower;
    forall i | 0 <= i < |p| && i < |s|
      ensures Lower(s[i]) == Lower(p[i]) <==> || s[i] == p[i]
                                              || ('A' <= s[i] <= 'Z' && p[i] as int == s[i] as int + 32)
                                              || ('A' <= p[i] <= 'Z' && s[i] as int == p[i] as int + 32)
    {
      LowerMeaning(s[i], p[i]);
    }
  }

  /** Some line answers exactly when a first one does. */
  lemma FirstAnswerExists(ls: seq<string>, m: nat, prefix: string, n: nat, d: set<char>) returns (k: nat)
    requires m < |ls| && Answers(ls[m], prefix, n, d)
    ensures k <= m && FirstAnswer(ls, k, prefix, n, d)
  {
    hide Answers;
    k := 0;
    while !Answers(ls[k], prefix, n, d)
      invariant k <= m
      invariant forall j :: 0 <= j < k ==> !Answers(ls[j], prefix, n, d)
      decreases m - k
    {
      k := k + 1;
    }
  }

  /** strncasecmp(buf, prefix, strlen(prefix)) == 0. */
  method PrefixMatches(buf: array<char>, prefix: string, ghost s: string) returns (b: bool)
    requires Str(buf, 0, s) && NoNul(prefix)
    ensures b <==> HasPrefixNoCase(s, prefix)
  {
    var i := 0;
    while i < |prefix|
      invariant i <= |prefix| && i <= |s|
      invariant forall j :: 0 <= j < i ==> Lower(s[j]) == Lower(prefix[j])
    {
      assert prefix[i] != '\0';
      if buf[i] == '\0' || Lower(buf[i]) != Lower(prefix[i]) {
        return false;
      }
      assert buf[i] == s[i - 0];
      i := i + 1;
    }
    b := true;
  }

  /** strtok(line, d), then nfield times strtok(NULL, d); the text of the last result, if any. */
  method NthToken(line: array<char>, nfield: int, d: set<char>, ghost s: string) returns (r: Option<string>)
    requires Str(line, 0, s)
    modifies line
    ensures r == Pick(Tokens(s, d), if nfield < 0 then 0 else nfield)
  {
    hide Tokens, Pick;
    ghost var ts, n: nat := Tokens(s, d), if nfield < 0 then 0 else nfield;
    var st := new Strtok(line, s);
    r := st.Token(d, ts, 0);
    var i := 0;
    while i < nfield
      invariant 0 <= i <= n && st.buf == line
      invariant st.Left(d, ts, i + 1) && r == Pick(ts, i)
    {
      i := i + 1;
      r := st.Token(d, ts, i);
    }
  }

  method Search(fp: Stream, fstr: string, nfield: int, delim: set<char>) returns (ret: Option<string>)
    requires fp.Valid() && NoNul(fstr)
    modifies fp
    ensures fp.Valid()
    ensures ret == FirstField(Reads(old(fp.Rest()), 399), fstr, if nfield < 0 then 0 else nfield, delim)
  {
    ghost var ls, n: nat := Reads(fp.Rest(), 399), if nfield < 0 then 0 else nfield;
    ghost var k := 0;
    var line := new char[500](_ => '\0');
    var more := fp.NextLine(line, 399, ls, 0);
    while more
      invariant fp.LinesLeft(399, ls, k + 1) && k <= |ls|
      invariant (more <==> k < |ls|) && (more ==> Str(line, 0, ls[k]))
      invariant FirstField(ls, fstr, n, delim) == FirstField(ls[k..], fstr, n, delim)
      decreases |ls| - k
    {
      assert ls[k..][0] == ls[k] && ls[k..][1..] == ls[k + 1..];
      var hit := PrefixMatches(line, fstr, ls[k]);
      if hit {
        ret := NthToken(line, nfield, delim, ls[k]);
        if ret.Some? {
          return;
        }
      }
      k := k + 1;
      more := fp.NextLine(line, 399, ls, k);
    }
    ret := None;
  }

  /** grep_awk on a file of NUL-free lines of at most 399 bytes is the query over its lines. */
  lemma SearchesLines(file: string, fstr: string, n: nat, delim: set<char>)
    requires NoNul(file) && Within(TextLines(file), 399)
    ensures FirstField(Reads(file, 399), fstr, n, delim) == FirstField(TextLines(file), fstr, n, delim)
  {
    ReadsAreLines(file, 399);
  }
}
