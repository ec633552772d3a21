/** Rebuilding a command line: Linux clean_cmdline and get_cmdline, OS X get_cmdline. */
module Cmdline {
  import opened Buffers
  import opened CBuffer
  import opened CText

  const NUL: set<char> := {'\0'}

  /** The kernel's flat encoding: every argument followed by a NUL. */
  function Encode(args: seq<string>): string {
    if args == [] then [] else args[0] + ['\0'] + Encode(args[1..])
  }

  /** No argument holds a NUL. */
  predicate Plain(args: seq<string>) {
    forall i {:trigger args[i]} :: 0 <= i < |args| ==> NoNul(args[i])
  }

  // ----- Linux

  function Spaced(s: string): (r: string)
    ensures |r| == |s|
    ensures forall i :: 0 <= i < |s| ==> r[i] == if s[i] == '\0' then ' ' else s[i]
  {
    seq(|s|, i requires 0 <= i < |s| => if s[i] == '\0' then ' ' else s[i])
  }

  function NulCount(s: string): nat {
    if s == [] then 0 else NulCount(s[..|s| - 1]) + if s[|s| - 1] == '\0' then 1 else 0
  }

  /** clean_cmdline on the first len bytes, which are s. */
  method CleanCmdline(ip: array<char>, len: nat, ghost s: string) returns (replacements: nat)
    requires 1 <= len <= ip.Length && |s| == len && forall i :: 0 <= i < len ==> ip[i] == s[i]
    modifies ip
    ensures Str(ip, 0, Spaced(s)[..len - 1])
    ensures replacements == NulCount(s)
    ensures forall i :: len <= i < ip.Length ==> ip[i] == old(ip[i])
  {
    var i := 0;
    replacements := 0;
    while i < len
      invariant i <= len && replacements == NulCount(s[..i])
      invariant forall j :: 0 <= j < i ==> ip[j] == Spaced(s)[j]
      invariant forall j :: i <= j < len ==> ip[j] == s[j]
      invariant forall j :: len <= j < ip.Length ==> ip[j] == old(ip[j])
    {
      assert s[..i + 1][..i] == s[..i];
      if ip[i] == '\0' {
        ip[i] := ' ';
        replacements := replacements + 1;
      }
      i := i + 1;
    }
    assert s[..len] == s;
    i := i - 1;
    ip[i] := '\0';
  }

  /** What get_cmdline returns for the text of the cmdline file. */
  function Shown(file: string): string
    requires file != []
  {
    var read := if |file| <= 500 then file else file[..500];
    Spaced(read)[..|read| - 1]
  }

  /** For any file, whether or not it ends in a NUL: all but the last of the bytes read, which are 500 at
      most, with a blank for every NUL. */
  lemma ShownMeaning(file: string)
    requires file != []
    ensures |Shown(file)| == if |file| <= 500 then |file| - 1 else 499
    ensures forall i :: 0 <= i < |Shown(file)| ==> Shown(file)[i] == if file[i] == '\0' then ' ' else file[i]
  {
  }

  /** The count that clean_cmdline returns for the encoding of arguments is their number. */
  lemma {:induction false} NulsOfEncoding(args: seq<string>)
    requires Plain(args)
    ensures NulCount(Encode(args)) == |args|
  {
    if args != [] {
      PlainTail(args);
      NulsOfEncoding(args[1..]);
      NulsSplit(args[0] + ['\0'], Encode(args[1..]));
      NoNuls(args[0]);
      assert (args[0] + ['\0'])[..|args[0]|] == args[0];
    }
  }

  lemma {:induction false} NulsSplit(a: string, b: string)
    ensures NulCount(a + b) == NulCount(a) + NulCount(b)
    decreases |b|
  {
    if b == [] {
      assert a + b == a;
    } else {
      assert (a + b)[..|a + b| - 1] == a + b[..|b| - 1];
      NulsSplit(a, b[..|b| - 1]);
    }
  }

  lemma {:induction false} NoNuls(s: string)
    requires NoNul(s)
    ensures NulCount(s) == 0
    decreases |s|
  {
    if s != [] {
      NoNuls(s[..|s| - 1]);
    }
  }

  /** get_cmdline; the file must not be empty. */
  method LinuxCmdline(file: Option<string>) returns (ret: Option<array<char>>)
    requires file.Some? ==> file.value != []
    ensures ret.Some? <==> file.Some?
    ensures ret.Some? ==> Str(ret.value, 0, Shown(file.value))
  {
    if file.None? {
      return None;
    }
    var bufsize := 500;
    var contents := new char[bufsize](_ => '\0');
    var read := if |file.value| <= bufsize then |file.value| else bufsize;
    forall i | 0 <= i < read {
      contents[i] := file.value[i];
    }
    var n := CleanCmdline(contents, read, file.value[..read]);
    assert |file.value| <= 500 ==> file.value[..read] == file.value;
    ret := Some(contents);
  }

  lemma {:induction false} EncodeLength(args: seq<string>)
    ensures args != [] ==> |Encode(args)| == |Join(args, ' ')| + 1
  {
    if |args| > 1 {
      EncodeLength(args[1..]);
    }
  }

  /** Blanking the NULs of the encoding joins the arguments; the last NUL is the one cut off. */
  lemma {:induction false} SpacedIsJoined(args: seq<string>)
    requires args != [] && Plain(args)
    ensures |Encode(args)| == |Join(args, ' ')| + 1
    ensures Spaced(Encode(args))[..|Encode(args)| - 1] == Join(args, ' ')
  {
    EncodeLength(args);
    var e, a := Encode(args), args[0];
    assert NoNul(args[0]);
    if |args| == 1 {
      assert Encode(args[1..]) == [];
      assert e == a + ['\0'];
      assert Spaced(e)[..|a|] == a;
    } else {
      var rest := args[1..];
      assert Plain(rest);
      SpacedIsJoined(rest);
      assert e == a + ['\0'] + Encode(rest);
      SpacedSplit(a + ['\0'], Encode(rest));
      assert Spaced(a + ['\0']) == a + [' '];
      assert Spaced(e)[..|e| - 1] == (a + [' ']) + Spaced(Encode(rest))[..|Encode(rest)| - 1];
    }
  }

  lemma SpacedSplit(a: string, b: string)
    ensures Spaced(a + b) == Spaced(a) + Spaced(b)
  {
  }

  /** Linux shows the arguments joined by blanks, cut to the first min(T, 500) - 1 characters where T
      is the length of the encoding. */
  lemma {:induction false} LinuxTruncatesExactly(args: seq<string>)
    requires args != [] && Plain(args)
    ensures Encode(args) != []
    ensures var t := |Encode(args)|;
            var shown := if t <= 500 then t - 1 else 499;
            shown <= |Join(args, ' ')| && Shown(Encode(args)) == Join(args, ' ')[..shown]
  {
    SpacedIsJoined(args);
    var e := Encode(args);
    if |e| > 500 {
      assert Spaced(e[..500])[..499] == Spaced(e)[..|e| - 1][..499];
    }
  }

  // ----- OS X

  /** The NUL-terminated strings s is made of; an unterminated end is no string. */
  function Pieces(s: string): seq<string>
    decreases |s|
  {
    var n := CSpan(s, NUL);
    if n == |s| then [] else [s[..n]] + Pieces(s[n + 1..])
  }

  function DropNuls(s: string): string {
    s[Span(s, NUL)..]
  }

  function Take<T>(xs: seq<T>, n: nat): seq<T> {
    if n <= |xs| then xs[..n] else xs
  }

  /** The strings the walk over the argument area takes: the first nargs after the padding. */
  function Walked(area: string, nargs: nat): seq<string> {
    Take(Pieces(DropNuls(area)), nargs)
  }

  /** Every string followed by a blank: what the walk has appended. */
  function Trailed(ps: seq<string>): string {
    if ps == [] then [] else Trailed(ps[..|ps| - 1]) + ps[|ps| - 1] + [' ']
  }

  lemma {:induction false} TrailedIsJoined(ps: seq<string>)
    requires ps != []
    ensures Trailed(ps) == Join(ps, ' ') + [' ']
    decreases |ps|
  {
    if |ps| > 1 {
      var init, last := ps[..|ps| - 1], ps[|ps| - 1];
      TrailedIsJoined(init);
      JoinSnoc(init, last);
      assert ps == init + [last];
    } else {
      assert ps[..0] == [];
    }
  }

  lemma {:induction false} JoinSnoc(ps: seq<string>, p: string)
    requires ps != []
    ensures Join(ps + [p], ' ') == Join(ps, ' ') + [' '] + p
    decreases |ps|
  {
    if |ps| > 1 {
      assert (ps + [p])[1..] == ps[1..] + [p];
      JoinSnoc(ps[1..], p);
    } else {
      assert (ps + [p])[1..] == [p];
    }
  }

  /** The walk stands at a string boundary: the bytes from curr on hold the pieces from k on. */
  ghost predicate AtPiece(all: string, curr: nat, ps: seq<string>, k: nat) {
    curr <= |all| && Pieces(all[curr..]) == From(ps, k)
  }

  lemma NextPiece(all: string, curr: nat, end: nat, ps: seq<string>, k: nat)
    requires AtPiece(all, curr, ps, k) && curr <= end < |all| && all[end] == '\0'
    requires forall i :: curr <= i < end ==> all[i] != '\0'
    ensures k < |ps| && ps[k] == all[curr..end] && AtPiece(all, end + 1, ps, k + 1)
  {
    var s := all[curr..];
    CSpanIs(s, NUL, end - curr);
    assert s[..end - curr] == all[curr..end] && s[end - curr + 1..] == all[end + 1..];
    assert From(ps, k)[0] == ps[k] && From(ps, k)[1..] == From(ps, k + 1);
  }

  lemma NoMorePieces(all: string, curr: nat, ps: seq<string>, k: nat)
    requires AtPiece(all, curr, ps, k) && k <= |ps|
    requires forall i :: curr <= i < |all| ==> all[i] != '\0'
    ensures k == |ps|
  {
    var s := all[curr..];
    assert s[..|s|] == s;
    CSpanIs(s, NUL, |s|);
  }

  /** The while loop of get_cmdline, from the first argument at argPtr on. */
  method AppendArgs(procargs: array<char>, first: nat, nargs: nat, ret: array<char>, ghost all: string, ghost ps: seq<string>)
    returns (len: nat)
    requires Contains(procargs, all) && procargs != ret && AtPiece(all, first, ps, 0)
    requires |Trailed(Take(ps, nargs))| < ret.Length && Str(ret, 0, "")
    modifies ret
    ensures Str(ret, 0, Trailed(Take(ps, nargs))) && len == |Trailed(Take(ps, nargs))|
  {
    hide Pieces, Str, Trailed;
    var argPtr, currArg, left := first, first, nargs;
    len := 0;
    ghost var k := 0;
    TrailedGrows(ps, 0, nargs);
    while argPtr < procargs.Length && left > 0
      invariant first <= currArg <= argPtr <= |all| && Contains(procargs, all)
      invariant forall i :: currArg <= i < argPtr ==> all[i] != '\0'
      invariant k <= |ps| && left == nargs - k && AtPiece(all, currArg, ps, k)
      invariant left == 0 ==> currArg == argPtr
      invariant Str(ret, 0, Trailed(ps[..k])) && len == |Trailed(ps[..k])|
      decreases |all| - argPtr
    {
      if procargs[argPtr] == '\0' {
        NextPiece(all, currArg, argPtr, ps, k);
        TrailedGrows(ps, k + 1, nargs);
        len := AppendArg(procargs, currArg, ret, all, argPtr, ps, k, len);
        argPtr := argPtr + 1;
        currArg, left, k := argPtr, left - 1, k + 1;
      } else {
        argPtr := argPtr + 1;
      }
    }
    if left > 0 {
      NoMorePieces(all, currArg, ps, k);
    }
    assert ps[..k] == Take(ps, nargs);
  }

  /** strcat(ret, currArg), then a blank and a NUL. */
  method AppendArg(procargs: array<char>, curr: nat, ret: array<char>, ghost all: string, ghost end: nat,
                   ghost ps: seq<string>, ghost k: nat, len: nat) returns (len': nat)
    requires Contains(procargs, all) && procargs != ret && curr <= end < |all| && all[end] == '\0'
    requires forall i :: curr <= i < end ==> all[i] != '\0'
    requires k < |ps| && ps[k] == all[curr..end]
    requires Str(ret, 0, Trailed(ps[..k])) && len == |Trailed(ps[..k])| && |Trailed(ps[..k + 1])| < ret.Length
    modifies ret
    ensures Str(ret, 0, Trailed(ps[..k + 1])) && len' == |Trailed(ps[..k + 1])|
  {
    ghost var t := Trailed(ps[..k]);
    assert ps[..k + 1][..k] == ps[..k];
    assert Trailed(ps[..k + 1]) == t + ps[k] + [' '];
    PieceIsStr(procargs, all, curr, end);
    StrCat(ret, procargs, curr, t, ps[k]);
    ReadStrIs(procargs, curr, ps[k]);
    len' := len + |ReadStr(procargs, curr)|;
    Terminate(ret, len', t + ps[k]);
    len' := len' + 1;
  }

  lemma PieceIsStr(procargs: array<char>, all: string, curr: nat, end: nat)
    requires Contains(procargs, all) && curr <= end < |all| && all[end] == '\0'
    requires forall i :: curr <= i < end ==> all[i] != '\0'
    ensures Str(procargs, curr, all[curr..end])
  {
  }

  /** ret[len] = ' '; ret[++len] = '\0'; */
  method Terminate(ret: array<char>, len: nat, ghost t: string)
    requires Str(ret, 0, t) && len == |t| && |t| + 1 < ret.Length
    modifies ret
    ensures Str(ret, 0, t + [' '])
  {
    ret[len] := ' ';
    ret[len + 1] := '\0';
  }

  lemma TrailedGrows(ps: seq<string>, k: nat, n: nat)
    requires k <= |ps| && k <= n
    ensures |Trailed(ps[..k])| <= |Trailed(Take(ps, n))|
    ensures Trailed(ps[..0]) == []
  {
    var m := if n <= |ps| then n else |ps|;
    assert Take(ps, n) == ps[..m];
    TrailedPrefix(ps, k, m);
  }

  lemma {:induction false} TrailedPrefix(ps: seq<string>, k: nat, m: nat)
    requires k <= m <= |ps|
    ensures |Trailed(ps[..k])| <= |Trailed(ps[..m])|
  {
    if k < m {
      TrailedPrefix(ps, k, m - 1);
      assert ps[..m][..m - 1] == ps[..m - 1];
    }
  }

  /** OS X get_cmdline on the bytes sysctl returned: four bytes of count (nargs), the executable path
      and its NUL, then the argument area. NULL when the buffer ends with the path. */
  method OsxCmdline(procargs: array<char>, nargs: nat, ghost all: string, ghost path: string, ghost area: string)
    returns (ret: Option<array<char>>)
    requires Contains(procargs, all) && |all| >= 4 && all[4..] == path + ['\0'] + area && NoNul(path)
    requires area != [] ==> Walked(area, nargs) != [] && |Trailed(Walked(area, nargs))| < 500
    ensures ret.None? <==> area == []
    ensures ret.Some? ==> Str(ret.value, 0, Join(Walked(area, nargs), ' '))
  {
    hide Pieces, Trailed, Join;
    var buf := new char[500](_ => '\0');
    PathIsStr(procargs, all, path, area);
    ReadStrIs(procargs, 4, path);
    var len := |ReadStr(procargs, 4)|;
    var argPtr := 4 + len + 1;
    if argPtr == procargs.Length {
      return None;
    }
    argPtr := SkipPadding(procargs, argPtr, all, area);
    ghost var ps := Pieces(DropNuls(area));
    len := AppendArgs(procargs, argPtr, nargs, buf, all, ps);
    TrailedIsJoined(Walked(area, nargs));
    len := len - 1;
    CutLast(buf, len, Join(Walked(area, nargs), ' '));
    ret := Some(buf);
  }

  /** The for loop to the first argument. */
  method SkipPadding(procargs: array<char>, start: nat, ghost all: string, ghost area: string) returns (argPtr: nat)
    requires Contains(procargs, all) && start <= |all| && all[start..] == area
    ensures AtPiece(all, argPtr, Pieces(DropNuls(area)), 0)
  {
    hide Pieces, DropNuls;
    argPtr := start;
    while argPtr < procargs.Length && procargs[argPtr] == '\0'
      invariant start <= argPtr <= procargs.Length
      invariant forall i :: start <= i < argPtr ==> all[i] == '\0'
    {
      argPtr := argPtr + 1;
    }
    AfterPadding(all, start, argPtr, area);
  }

  /** ret[--len] = '\0'; */
  method CutLast(buf: array<char>, len: nat, ghost t: string)
    requires Str(buf, 0, t + [' ']) && len == |t|
    modifies buf
    ensures Str(buf, 0, t)
  {
    assert forall i :: 0 <= i < |t| ==> t[i] == (t + [' '])[i];
    buf[len] := '\0';
  }

  lemma PathIsStr(procargs: array<char>, all: string, path: string, area: string)
    requires Contains(procargs, all) && |all| >= 4 && all[4..] == path + ['\0'] + area && NoNul(path)
    ensures Str(procargs, 4, path) && all[4 + |path| + 1..] == area && (area == [] <==> 4 + |path| + 1 == |all|)
  {
    assert forall i :: 4 <= i < |all| ==> all[i] == all[4..][i - 4];
  }

  lemma AfterPadding(all: string, start: nat, first: nat, area: string)
    requires start <= first <= |all| && all[start..] == area
    requires forall i :: start <= i < first ==> all[i] == '\0'
    requires first < |all| ==> all[first] != '\0'
    ensures AtPiece(all, first, Pieces(DropNuls(area)), 0)
  {
    assert forall i :: 0 <= i < |area| ==> area[i] == all[start + i];
    SpanIs(area, NUL, first - start);
    assert area[first - start..] == all[first..];
  }

  // ----- what the area holds

  lemma NoPieces()
    ensures Pieces([]) == []
  {
  }

  lemma PlainTail(args: seq<string>)
    requires Plain(args) && args != []
    ensures NoNul(args[0]) && Plain(args[1..])
  {
    hide NoNul;
    assert NoNul(args[0]);
    forall i | 0 <= i < |args[1..]| ensures NoNul(args[1..][i]) {
      assert args[1..][i] == args[i + 1];
    }
  }

  lemma OnePiece(a: string, rest: string)
    requires NoNul(a)
    ensures Pieces(a + ['\0'] + rest) == [a] + Pieces(rest)
  {
    var s := a + ['\0'] + rest;
    assert s[..|a|] == a;
    CSpanIs(s, NUL, |a|);
    assert s[|a| + 1..] == rest;
  }

  /** Cutting the encoding at its NULs gives the arguments back. */
  lemma {:induction false} PiecesOfEncoding(args: seq<string>, rest: string)
    requires Plain(args)
    ensures Pieces(Encode(args) + rest) == args + Pieces(rest)
  {
    hide Pieces, NoNul, Plain;
    if args == [] {
      assert Encode(args) + rest == rest;
    } else {
      PlainTail(args);
      PiecesOfEncoding(args[1..], rest);
      OnePiece(args[0], Encode(args[1..]) + rest);
      assert Encode(args) + rest == args[0] + ['\0'] + (Encode(args[1..]) + rest);
      assert args == [args[0]] + args[1..];
    }
  }

  /** The strings without the empty ones in front. */
  function DropEmpty(ss: seq<string>): (r: seq<string>)
    ensures r != [] ==> r[0] != []
  {
    if ss != [] && ss[0] == [] then DropEmpty(ss[1..]) else ss
  }

  lemma {:induction false} DropNulsDropsEmpty(ss: seq<string>)
    requires Plain(ss)
    ensures DropNuls(Encode(ss)) == Encode(DropEmpty(ss)) && Plain(DropEmpty(ss))
  {
    hide DropNuls, NoNul, Plain;
    if ss == [] {
      NothingToDrop([]);
    } else {
      PlainTail(ss);
      if ss[0] == [] {
        DropNulsDropsEmpty(ss[1..]);
        assert Encode(ss) == ['\0'] + Encode(ss[1..]);
        SpanOfNul(Encode(ss[1..]));
      } else {
        StartsPlain(ss[0], Encode(ss[1..]));
      }
    }
  }

  lemma NothingToDrop(s: string)
    requires s != [] ==> s[0] != '\0'
    ensures DropNuls(s) == s
  {
    SpanIs(s, NUL, 0);
  }

  lemma StartsPlain(a: string, rest: string)
    requires NoNul(a) && a != []
    ensures DropNuls(a + ['\0'] + rest) == a + ['\0'] + rest
  {
    NothingToDrop(a + ['\0'] + rest);
  }

  lemma SpanOfNul(s: string)
    ensures DropNuls(['\0'] + s) == DropNuls(s)
  {
    var n := Span(s, NUL);
    var t := ['\0'] + s;
    assert forall i :: 1 <= i < |t| ==> t[i] == s[i - 1];
    SpanIs(t, NUL, n + 1);
    assert t[n + 1..] == s[n..];
  }

  lemma {:induction false} EncodeSplit(a: seq<string>, b: seq<string>)
    ensures Encode(a + b) == Encode(a) + Encode(b)
  {
    if a == [] {
      assert a + b == b;
    } else {
      assert (a + b)[0] == a[0] && (a + b)[1..] == a[1..] + b;
      EncodeSplit(a[1..], b);
    }
  }

  lemma {:induction false} PaddingIsEmptyStrings(pad: string, ss: seq<string>)
    requires Only(pad, NUL) && Plain(ss)
    ensures DropNuls(pad + Encode(ss)) == DropNuls(Encode(ss))
    decreases |pad|
  {
    hide DropNuls, Encode, NoNul, Plain;
    if pad == [] {
      assert pad + Encode(ss) == Encode(ss);
    } else {
      PaddingIsEmptyStrings(pad[1..], ss);
      assert pad[0] in NUL;
      assert pad + Encode(ss) == ['\0'] + (pad[1..] + Encode(ss));
      SpanOfNul(pad[1..] + Encode(ss));
    }
  }

  /** On any argument area, padding followed by arguments and environment, the OS X walk takes the
      first nargs strings that are left once leading empty ones are gone, wherever they come from. */
  lemma WalkTakes(pad: string, args: seq<string>, env: seq<string>, n: nat)
    requires Only(pad, NUL) && Plain(args) && Plain(env)
    ensures Walked(pad + Encode(args) + Encode(env), n) == Take(DropEmpty(args + env), n)
  {
    hide Pieces, DropNuls, DropEmpty, NoNul, Encode, Take;
    var ss := args + env;
    EncodeSplit(args, env);
    assert Plain(ss);
    assert pad + Encode(args) + Encode(env) == pad + Encode(ss);
    PaddingIsEmptyStrings(pad, ss);
    DropNulsDropsEmpty(ss);
    PiecesOfEncoding(DropEmpty(ss), []);
    assert Encode(DropEmpty(ss)) + [] == Encode(DropEmpty(ss));
    NoPieces();
    assert DropEmpty(ss) + [] == DropEmpty(ss);
  }

  /** With a non-empty first argument, the walk appends the arguments and their blanks to the 500-byte
      buffer; they fit if and only if the encoding has at most 499 bytes. */
  lemma OsxFitsExactly(pad: string, args: seq<string>, env: seq<string>)
    requires Only(pad, NUL) && Plain(args) && Plain(env) && args != [] && args[0] != []
    ensures var walked := Walked(pad + Encode(args) + Encode(env), |args|);
            walked == args && (|Trailed(walked)| < 500 <==> |Encode(args)| <= 499)
  {
    hide Encode, Trailed, Join, Walked;
    EncodeLength(args);
    WalkTakes(pad, args, env, |args|);
    assert (args + env)[0] == args[0];
    assert (args + env)[..|args|] == args;
    TrailedIsJoined(args);
  }

  /** The two systems agree: with a non-empty first argument and an encoding of at most 499 bytes,
      both show the arguments joined by single blanks. */
  lemma SystemsAgree(pad: string, args: seq<string>, env: seq<string>)
    requires Only(pad, NUL) && Plain(args) && Plain(env)
    requires args != [] && args[0] != [] && |Encode(args)| <= 499
    ensures Encode(args) != [] && Shown(Encode(args)) == Join(args, ' ')
    ensures var area := pad + Encode(args) + Encode(env);
            && Walked(area, |args|) == args && |Trailed(Walked(area, |args|))| < 500
  {
    LinuxTruncatesExactly(args);
    EncodeLength(args);
    var j := Join(args, ' ');
    assert j[..|j|] == j;
    OsxFitsExactly(pad, args, env);
  }

  /** The joined line splits back into the arguments when none holds a blank. */
  lemma JoinedSplitsBack(args: seq<string>)
    requires args != [] && forall i :: 0 <= i < |args| ==> Free(args[i], {' '})
    ensures Split(Join(args, ' '), {' '}) == args
  {
    SplitJoin(args, ' ');
  }

  // ----- an empty first argument

  const GAP: set<char> := {' '}

  /** A list of empty strings joins to blanks. */
  lemma {:induction false} EmptyJoinsToGaps(ss: seq<string>)
    requires DropEmpty(ss) == []
    ensures Only(Join(ss, ' '), GAP)
  {
    if |ss| > 1 {
      EmptyJoinsToGaps(ss[1..]);
    }
  }

  /** A joined list starts with a blank for every empty string in front, then with the blanks of the
      first other string, if that is not all blanks. */
  lemma {:induction false} JoinIndent(ss: seq<string>)
    requires DropEmpty(ss) != [] && !Only(DropEmpty(ss)[0], GAP)
    ensures Span(Join(ss, ' '), GAP) == |ss| - |DropEmpty(ss)| + Span(DropEmpty(ss)[0], GAP) < |Join(ss, ' ')|
  {
    var j := Join(ss, ' ');
    if ss[0] == [] {
      JoinIndent(ss[1..]);
      assert j == [' '] + Join(ss[1..], ' ');
      assert j[1..] == Join(ss[1..], ' ');
    } else {
      var n := Span(ss[0], GAP);
      assert n < |ss[0]|;
      assert ss[0] <= j;
      assert j[..n] == ss[0][..n] && j[n] == ss[0][n];
      SpanIs(j, GAP, n);
    }
  }

  lemma {:induction false} DropEmptyOfBoth(a: seq<string>, b: seq<string>)
    ensures DropEmpty(a + b) == if DropEmpty(a) == [] then DropEmpty(b) else DropEmpty(a) + b
    ensures |DropEmpty(a)| <= |a| && (a != [] && a[0] == [] ==> |DropEmpty(a)| < |a|)
  {
    if a == [] {
      assert a + b == b;
    } else if a[0] == [] {
      assert (a + b)[0] == a[0] && (a + b)[1..] == a[1..] + b;
      DropEmptyOfBoth(a[1..], b);
    }
  }

  /** Exactly when OS X shows the arguments: the walk shows the joined arguments if and only if the
      first argument is not empty, unless the first string it finds instead is nothing but blanks. */
  lemma OsxExact(pad: string, args: seq<string>, env: seq<string>)
    requires Only(pad, NUL) && Plain(args) && Plain(env) && args != []
    requires DropEmpty(args + env) != []
    requires args[0] == [] ==> !Only(DropEmpty(args + env)[0], GAP)
    ensures Join(Walked(pad + Encode(args) + Encode(env), |args|), ' ') == Join(args, ' ') <==> args[0] != []
  {
    hide Walked, Join, DropEmpty, Encode;
    WalkTakes(pad, args, env, |args|);
    if args[0] != [] {
      FirstStays(args, env);
    } else {
      ShiftShows(args, env);
    }
  }

  lemma FirstStays(args: seq<string>, env: seq<string>)
    requires args != [] && args[0] != []
    ensures Take(DropEmpty(args + env), |args|) == args
  {
    assert (args + env)[0] == args[0];
    assert (args + env)[..|args|] == args;
  }

  /** An empty first argument shifts the strings, and with them the first character that is no
      blank. */
  lemma ShiftShows(args: seq<string>, env: seq<string>)
    requires args != [] && args[0] == []
    requires DropEmpty(args + env) != [] && !Only(DropEmpty(args + env)[0], GAP)
    ensures Join(Take(DropEmpty(args + env), |args|), ' ') != Join(args, ' ')
  {
    hide Join;
    var found := DropEmpty(args + env);
    var ps := Take(found, |args|);
    assert ps[0] == found[0] && DropEmpty(ps) == ps;
    JoinIndent(ps);
    DropEmptyOfBoth(args, env);
    if DropEmpty(args) == [] {
      EmptyJoinsToGaps(args);
    } else {
      assert DropEmpty(args)[0] == found[0];
      JoinIndent(args);
    }
  }

  /** With such a string an empty first argument can go unnoticed. */
  lemma BlankHidesEmptyFirst()
    ensures var args, env := ["", " "], [""];
            Join(Walked(Encode(args) + Encode(env), |args|), ' ') == Join(args, ' ') && args[0] == []
  {
    hide Walked;
    var args, env := ["", " "], [""];
    WalkTakes([], args, env, 2);
    assert [] + Encode(args) + Encode(env) == Encode(args) + Encode(env);
    assert (args + env)[1..] == [" ", ""];
    assert Take(DropEmpty(args + env), 2) == [" ", ""];
    assert args[1..] == [" "] && [" ", ""][1..] == [""];
  }
}
