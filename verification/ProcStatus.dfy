/** /proc/<pid>/status and /proc/<pid>/stat: get_ids and get_procname. */
module ProcStatus {
  import opened CText
  import opened Columns
  import opened Lines
  import opened Numbers
  import opened Squeeze
  import opened Tokenizer

  const TAB: set<char> := {'\t'}

  datatype Ids = Ids(ruid: int, euid: int, suid: int)

  // ----- get_ids

  /** The three numbers after the label, as unsigned int. */
  function IdsOf(s: string): Ids {
    var ts := Tokens(s, TAB);
    if |ts| >= 4 then Ids(StrToUL(ts[1]) % U32, StrToUL(ts[2]) % U32, StrToUL(ts[3]) % U32) else Ids(0, 0, 0)
  }

  predicate IdsOk(s: string) {
    |Tokens(s, TAB)| >= 4
  }

  /** The ids on the first line that starts with the field name. */
  function FirstIds(ls: seq<string>, field: string): Option<Ids> {
    if ls == [] then None
    else if field <= ls[0] then Some(IdsOf(ls[0])) else FirstIds(ls[1..], field)
  }

  lemma {:induction false} FirstIdsSkips(before: seq<string>, l: string, after: seq<string>, field: string)
    requires forall i :: 0 <= i < |before| ==> !(field <= before[i])
    requires field <= l
    ensures FirstIds(before + [l] + after, field) == Some(IdsOf(l))
  {
    hide IdsOf;
    var ls := before + [l] + after;
    if before != [] {
      FirstIdsSkips(before[1..], l, after, field);
      assert ls[0] == before[0] && ls[1..] == before[1..] + [l] + after;
    } else {
      assert ls[0] == l;
    }
  }

  method ParseIds(line: array<char>, ghost s: string) returns (ids: Ids)
    requires Str(line, 0, s) && IdsOk(s)
    modifies line
    ensures ids == IdsOf(s)
  {
    hide Tokens, StrToUL;
    ghost var ts := Tokens(s, TAB);
    var st := new Strtok(line, s);
    var tmp := st.Word(TAB, ts, 0);
    var ruid := st.Word(TAB, ts, 1);
    var euid := st.Word(TAB, ts, 2);
    var suid := st.Word(TAB, ts, 3);
    ids := Ids(StrToUL(ruid) % U32, StrToUL(euid) % U32, StrToUL(suid) % U32);
  }

  ghost predicate FirstOk(ls: seq<string>, field: string) {
    forall i {:trigger IdsOk(ls[i])} ::
      (0 <= i < |ls| && field <= ls[i] && forall j :: 0 <= j < i ==> !(field <= ls[j])) ==> IdsOk(ls[i])
  }

  lemma FirstHitOk(ls: seq<string>, k: nat, field: string)
    requires FirstOk(ls, field) && k < |ls| && field <= ls[k] && forall j :: 0 <= j < k ==> !(field <= ls[j])
    ensures IdsOk(ls[k])
  {
  }

  lemma FirstIdsStep(ls: seq<string>, k: nat, field: string)
    requires k < |ls|
    ensures FirstIds(From(ls, k), field)
         == if field <= ls[k] then Some(IdsOf(ls[k])) else FirstIds(From(ls, k + 1), field)
  {
    hide IdsOf;
    assert From(ls, k)[0] == ls[k] && From(ls, k)[1..] == From(ls, k + 1);
  }

  lemma NoIdsLeft(ls: seq<string>, k: nat, field: string)
    requires k == |ls|
    ensures FirstIds(From(ls, k), field) == None
  {
    hide IdsOf;
  }

  /** get_ids; the first matching line must hold the three numbers it dereferences. */
  method GetIds(file: Option<string>, field: string) returns (ret: Option<Ids>)
    requires NoNul(field) && |field| == 4
    requires file.Some? ==> FirstOk(Reads(file.value, 398), field)
    ensures ret == if file.None? then None else FirstIds(Reads(file.value, 398), field)
  {
    hide Reads, IdsOf, IdsOk, FirstOk, FirstIds, Str;
    if file.None? {
      return None;
    }
    ghost var ls := Reads(file.value, 398);
    ghost var k := 0;
    var fp := new Stream(file.value);
    var line := new char[400](_ => '\0');
    var more := fp.NextLine(line, 398, ls, 0);
    while more
      invariant fp.LinesLeft(398, ls, k + 1) && k <= |ls| && fresh(fp) && fresh(line)
      invariant (more <==> k < |ls|) && (more ==> Str(line, 0, ls[k]))
      invariant forall j :: 0 <= j < k ==> !(field <= ls[j])
      invariant FirstIds(ls, field) == FirstIds(From(ls, k), field)
      decreases |ls| - k
    {
      FirstIdsStep(ls, k, field);
      var hit := StartsWith(line, field, ls[k]);
      if hit {
        FirstHitOk(ls, k, field);
        var ids := ParseIds(line, ls[k]);
        return Some(ids);
      }
      k := k + 1;
      more := fp.NextLine(line, 398, ls, k);
    }
    NoIdsLeft(ls, k, field);
    ret := None;
  }

  /** A status file whose lines fit up to the first Uid (or Gid) line, which holds real, effective,
      saved and further ids: the first three come back, whatever the file goes on with. */
  lemma GetIdsRoundTrip(before: seq<string>, field: string, pads: seq<string>, ids: seq<int>, tail: string,
                        lines: seq<string>)
    requires |ids| >= 3 && Labelled(field, pads, ids, {'\t'})
    requires forall i :: 0 <= i < |before| ==> !(field <= before[i])
    requires lines == before + [Row(LabelledCells(field, pads, ids), "")]
    requires forall i :: 0 <= i < |lines| ==> IsLine(lines[i]) && NoNul(lines[i]) && |lines[i]| <= 398
    ensures FirstIds(Reads(Flatten(lines) + tail, 398), field) 
         == Some(Ids(ids[0] % 0x1_0000_0000, ids[1] % 0x1_0000_0000, ids[2] % 0x1_0000_0000))
  {
    hide Tokens, StrToUL, Reads, Free, Only;
    var l := Row(LabelledCells(field, pads, ids), "");
    ReadsOfPrefix(lines, tail, 398);
    assert field <= l by {
      assert LabelledCells(field, pads, ids)[0] == Cell("", field);
    }
    FirstIdsSkips(before, l, Reads(tail, 398), field);
    LabelledRoundTrip(field, pads, ids, TAB);
    var ts := Tokens(l, TAB);
    assert StrToUL(ts[0 + 1]) == ids[0] && StrToUL(ts[1 + 1]) == ids[1] && StrToUL(ts[2 + 1]) == ids[2];
  }

  // ----- get_procname

  /** The second field without parentheses. */
  function NameOf(s: string): string {
    var ts := Tokens(s, SPACE);
    if |ts| >= 2 then Without(ts[1], "()") else ""
  }

  /** get_procname on the open stat file; None is a failed read. */
  method GetProcname(file: Option<string>) returns (ret: Option<string>)
    requires file.Some? && Reads(file.value, 299) != [] ==> |Tokens(Reads(file.value, 299)[0], SPACE)| >= 2
    ensures ret.None? <==> file.None? || Reads(file.value, 299) == []
    ensures ret.Some? ==> ret.value == NameOf(Reads(file.value, 299)[0])
  {
    hide Reads, Tokens, Without;
    if file.None? {
      return None;
    }
    ghost var ls := Reads(file.value, 299);
    var fp := new Stream(file.value);
    var line := new char[350](_ => '\0');
    var more := fp.NextLine(line, 299, ls, 0);
    if !more {
      return None;
    }
    var name := SecondField(line, ls[0]);
    ret := Some(name);
  }

  method SecondField(line: array<char>, ghost s: string) returns (name: string)
    requires Str(line, 0, s) && |Tokens(s, SPACE)| >= 2
    modifies line
    ensures name == NameOf(s)
  {
    hide Tokens, Without;
    ghost var ts := Tokens(s, SPACE);
    var st := new Strtok(line, s);
    var tmp := st.Token(SPACE, ts, 0);
    Step(st.text, SPACE, ts, 1);
    var tok := st.Next(SPACE);
    SqueezeInPlace(line, tok.value, "()", ts[1]);
    ReadStrIs(line, tok.value, Without(ts[1], "()"));
    name := ReadStr(line, tok.value);
  }

  /** The stat line of a process: pid, command in parentheses, the rest. */
  function StatLine(pid: string, comm: string, rest: string): string {
    pid + " (" + comm + ") " + rest
  }

  /** What get_procname gives: when the name has no newline before its last character and fits with the
      pid in the 299 characters read, the part of it before its first blank, without parentheses. */
  lemma ProcnameShown(pid: string, comm: string, rest: string)
    requires pid != [] && Free(pid, {' ', '\n'}) && NoNul(pid) && |pid| + 2 + |comm| <= 299 && NoNul(comm)
    requires forall i :: 0 <= i < |comm| - 1 ==> comm[i] != '\n'
    ensures var ls := Reads(StatLine(pid, comm, rest), 299);
            && ls != [] && |Tokens(ls[0], SPACE)| >= 2
            && NameOf(ls[0]) == Without(comm[..CSpan(comm, {' '})], "()")
  {
    hide Tokens, Reads, Chunk, CStr, NameOf, Without;
    var x := ReadOfStat(pid, comm, rest);
    NameInRead(pid, comm, ") " + rest, x);
  }

  /** get_procname gives the command name back if and only if the name has no blank, no parenthesis and
      no newline before its last character, and fits with the pid in the 299 characters read. */
  lemma ProcnameExact(pid: string, comm: string, rest: string)
    requires pid != [] && Free(pid, {' ', '\n'}) && NoNul(pid) && |pid| <= 297 && NoNul(comm)
    ensures var ls := Reads(StatLine(pid, comm, rest), 299);
            && ls != [] && |Tokens(ls[0], SPACE)| >= 2
            && (NameOf(ls[0]) == comm
                <==> && Free(comm, {' ', '(', ')'}) && |pid| + 2 + |comm| <= 299
                     && forall i :: 0 <= i < |comm| - 1 ==> comm[i] != '\n')
  {
    hide Tokens, Reads, Chunk, CStr, NameOf, Without;
    var x := ReadOfStat(pid, comm, rest);
    NameInRead(pid, comm, ") " + rest, x);
    BeforeBlank(comm);
  }

  /** The first read: pid, blank, parenthesis, and x, which covers the name or not. */
  lemma ReadOfStat(pid: string, comm: string, rest: string) returns (x: string)
    requires pid != [] && Free(pid, {' ', '\n'}) && NoNul(pid) && |pid| <= 297 && NoNul(comm)
    ensures Reads(StatLine(pid, comm, rest), 299) != []
    ensures Reads(StatLine(pid, comm, rest), 299)[0] == pid + " (" + x && x <= comm + (") " + rest)
    ensures |x| >= |comm| <==> |pid| + 2 + |comm| <= 299 && forall i :: 0 <= i < |comm| - 1 ==> comm[i] != '\n'
  {
    hide Reads, Chunk, CStr;
    var head, after := pid + " (", ") " + rest;
    x := CStr(Chunk(comm + after, 299 - |head|));
    assert StatLine(pid, comm, rest) == head + (comm + after);
    ReadsFrom(head, comm + after, 299);
    ReadCovers(comm, after, 299 - |head|);
  }

  /** The name that comes out of a read cut to pid, blank, parenthesis and x. */
  lemma NameInRead(pid: string, comm: string, after: string, x: string)
    requires pid != [] && Free(pid, SPACE) && ") " <= after && x <= comm + after
    ensures |Tokens(pid + " (" + x, SPACE)| >= 2
    ensures |x| >= |comm| ==> NameOf(pid + " (" + x) == Without(comm[..CSpan(comm, {' '})], "()")
    ensures |x| < |comm| ==> NameOf(pid + " (" + x) != comm
  {
    hide Tokens, Without, CSpan, NameOf;
    var tail := "(" + x;
    var w := tail[..CSpan(tail, SPACE)];
    SecondToken(pid, tail);
    assert pid + " (" + x == pid + " " + tail;
    if |x| < |comm| {
      CutIsShorter(w, x, comm);
    } else {
      TokenOfCommand(comm, after, x);
      ParensGo(comm[..CSpan(comm, SPACE)], w);
    }
  }

  lemma SecondToken(pid: string, tail: string)
    requires pid != [] && Free(pid, SPACE) && tail != [] && tail[0] == '('
    ensures |Tokens(pid + " " + tail, SPACE)| >= 2
    ensures var w := tail[..CSpan(tail, SPACE)]; w != [] && NameOf(pid + " " + tail) == Without(w, "()")
  {
    hide Tokens, Without;
    assert pid + " " + tail == "" + pid + [' '] + tail;
    NextWord("", pid, ' ', tail, SPACE);
    TokensStep(tail, SPACE);
    assert Tokens(pid + " " + tail, SPACE)[1] == tail[..CSpan(tail, SPACE)];
  }

  /** The part before the first blank, without parentheses, is the name itself exactly when the name has
      neither. */
  lemma BeforeBlank(comm: string)
    ensures Without(comm[..CSpan(comm, {' '})], "()") == comm <==> Free(comm, {' ', '(', ')'})
  {
    var n := CSpan(comm, {' '});
    WithoutShorter(comm[..n], "()");
    assert CharSet("()") == {'(', ')'};
    if n == |comm| {
      assert comm[..n] == comm;
      WithoutIdempotent(comm, "()");
      assert Free(comm, {'(', ')'}) <==> Free(comm, {' ', '(', ')'});
    }
  }

  /** A cut name comes back shorter than it is. */
  lemma CutIsShorter(w: string, x: string, comm: string)
    requires w <= "(" + x && w != [] && |x| < |comm|
    ensures Without(w, "()") != comm
  {
    assert w[0] == '(';
    WithoutShorter(w[1..], "()");
  }

  /** The token is the command up to its first blank, with the parentheses that were read. */
  lemma TokenOfCommand(comm: string, after: string, x: string)
    requires ") " <= after && x <= comm + after && |x| >= |comm|
    ensures var tail, c := "(" + x, comm[..CSpan(comm, SPACE)];
            var w := tail[..CSpan(tail, SPACE)];
            w == "(" + c || w == "(" + c + ")"
  {
    hide CSpan;
    var m := CSpan(comm, SPACE);
    assert x[..|comm|] == comm;
    if m < |comm| {
      CommandCut(comm, m, x);
    } else {
      assert comm[..m] == comm;
      AfterCommand(comm, after, x);
    }
  }

  lemma CommandCut(comm: string, m: nat, x: string)
    requires m < |comm| <= |x| && x[..|comm|] == comm && Free(comm[..m], SPACE) && comm[m] == ' '
    ensures ("(" + x)[..CSpan("(" + x, SPACE)] == "(" + comm[..m]
  {
    hide CSpan;
    assert x[m] == x[..|comm|][m];
    WordEnds("(" + comm[..m], x[m..]);
    assert x[..m] == x[..|comm|][..m];
    assert "(" + x == "(" + comm[..m] + x[m..];
  }

  lemma AfterCommand(comm: string, after: string, x: string)
    requires ") " <= after && x <= comm + after && |x| >= |comm| && Free(comm, SPACE)
    ensures var tail := "(" + x; var w := tail[..CSpan(tail, SPACE)];
            w == "(" + comm || w == "(" + comm + ")"
  {
    hide CSpan;
    var n := |comm|;
    if |x| == n {
      assert x == comm;
      WordEnds("(" + comm, []);
      assert "(" + x == "(" + comm + [];
    } else {
      assert x[n] == after[0];
      assert |x| > n + 1 ==> x[n + 1] == after[1];
      WordEnds("(" + comm + ")", x[n + 1..]);
      assert "(" + x == "(" + comm + ")" + x[n + 1..];
    }
  }

  lemma WordEnds(c: string, rest: string)
    requires Free(c, SPACE) && (rest != [] ==> rest[0] == ' ')
    ensures (c + rest)[..CSpan(c + rest, SPACE)] == c
  {
    assert (c + rest)[..|c|] == c;
    CSpanIs(c + rest, SPACE, |c|);
  }

  lemma ParensGo(c: string, w: string)
    requires w == "(" + c || w == "(" + c + ")"
    ensures Without(w, "()") == Without(c, "()")
  {
    WithoutSplit("(" + c, ")", "()");
    WithoutSplit("(", c, "()");
    assert Without(")", "()") == [] && Without("(", "()") == [];
  }

  /** A name of plain characters and a newline is cut behind the newline. */
  lemma NewlineCutsName()
    ensures var comm := "a\nb"; var ls := Reads(StatLine("1", comm, "S 0\n"), 299);
            Free(comm, {' ', '(', ')'}) && ls != [] && NameOf(ls[0]) == "a\n"
  {
    hide Reads, NameOf, Tokens, CStr, Chunk, Without;
    var t := "a\n" + "b) S 0\n";
    assert StatLine("1", "a\nb", "S 0\n") == "1 (" + t;
    ReadsFrom("1 (", t, 299);
    FirstLine("a\n", "b) S 0\n", 296);
    assert "1 (" + "a\n" == "1" + " (" + "a\n";
    NameInRead("1", "a\n", ") ", "a\n");
    BeforeBlank("a\n");
  }

  lemma FirstLine(l: string, t: string, m: nat)
    requires IsLine(l) && NoNul(l) && |l| <= m
    ensures CStr(Chunk(l + t, m)) == l
  {
    assert (l + t)[..|l| - 1] == l[..|l| - 1] && (l + t)[..|l|] == l;
    CSpanIs(l + t, {'\n'}, |l| - 1);
    CStrWhole(l);
  }
}
