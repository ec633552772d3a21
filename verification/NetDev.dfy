/** Linux net_io_counters: the table in /proc/net/dev. */
module NetDev {
  import opened Buffers
  import opened CText
  import opened Columns
  import opened Lines
  import opened Numbers
  import opened Tokenizer

  datatype NetIOCounters = NetIOCounters(name: string, bytesSent: int, bytesRecv: int, packetsSent: int,
                                         packetsRecv: int, errin: int, errout: int, dropin: int, dropout: int)

  const EMPTY := NetIOCounters("", 0, 0, 0, 0, 0, 0, 0, 0)

  datatype NetInfo = NetInfo(nitems: nat, iocounters: array<NetIOCounters>)

  /** The name ends at a blank or a colon; the counters are separated by blanks only. */
  const NAME_END: set<char> := {' ', '\n', ':'}

  function Counts(s: string): seq<string> {
    Tokens(Tail(s, NAME_END), BLANK)
  }

  /** The parser dereferences the name and the first twelve counters. */
  predicate RowOk(s: string) {
    Head(s, NAME_END) != [] && |Counts(s)| >= 12
  }

  function FromWords(name: string, ws: seq<string>): NetIOCounters
    requires |ws| >= 12
  {
    NetIOCounters(name, bytesRecv := StrToUL(ws[0]), packetsRecv := StrToUL(ws[1]), errin := StrToUL(ws[2]),
                  dropin := StrToUL(ws[3]), bytesSent := StrToUL(ws[8]), packetsSent := StrToUL(ws[9]),
                  errout := StrToUL(ws[10]), dropout := StrToUL(ws[11]))
  }

  /** The record of a line; nothing is claimed of a line that is not RowOk. */
  function NetRow(s: string): NetIOCounters {
    if RowOk(s) then FromWords(Head(s, NAME_END), Counts(s)) else EMPTY
  }

  /** The body of the loop for one interface line. It leaves the header counter i at 4. */
  method ParseRow(line: array<char>, ghost s: string) returns (nc: NetIOCounters, i: int)
    requires Str(line, 0, s) && RowOk(s)
    modifies line
    ensures nc == NetRow(s) && i == 4
  {
    var st := new Strtok(line, s);
    var tmp := st.Next(NAME_END);
    ReadStrIs(line, tmp.value, Head(s, NAME_END));
    nc, i := ReadCounts(st, Counts(s), ReadStr(line, tmp.value));
  }

  method ReadCounts(st: Strtok, ghost ts: seq<string>, name: string) returns (nc: NetIOCounters, i: int)
    requires st.Left(BLANK, ts, 0) && |ts| >= 12
    modifies st`save, st`text, st.buf
    ensures nc == FromWords(name, ts) && i == 4
  {
    hide Tokens, StrToUL;
    var w0, w1, w2, w3 := Four(st, ts, 0);
    i := SkipFour(st, ts);
    var w8, w9, w10, w11 := Four(st, ts, 8);
    nc := NetIOCounters(name, bytesRecv := StrToUL(w0), packetsRecv := StrToUL(w1), errin := StrToUL(w2),
                        dropin := StrToUL(w3), bytesSent := StrToUL(w8), packetsSent := StrToUL(w9),
                        errout := StrToUL(w10), dropout := StrToUL(w11));
  }

  /** for (i = 0; i < 4; i++) tmp = strtok(NULL, " \n") */
  method SkipFour(st: Strtok, ghost ts: seq<string>) returns (i: int)
    requires st.Left(BLANK, ts, 4)
    modifies st`save, st`text, st.buf
    ensures i == 4 && st.Left(BLANK, ts, 8)
  {
    hide Tokens, Pick;
    i := 0;
    while i < 4
      invariant 0 <= i <= 4 && st.Left(BLANK, ts, 4 + i)
    {
      var tmp := st.Token(BLANK, ts, 4 + i);
      i := i + 1;
    }
  }

  /** Four strtok calls in a row. */
  method Four(st: Strtok, ghost ts: seq<string>, ghost k: nat) returns (a: string, b: string, c: string, d: string)
    requires st.Left(BLANK, ts, k) && k + 4 <= |ts|
    modifies st`save, st`text, st.buf
    ensures st.Left(BLANK, ts, k + 4)
    ensures a == ts[k] && b == ts[k + 1] && c == ts[k + 2] && d == ts[k + 3]
  {
    a := st.Word(BLANK, ts, k);
    b := st.Word(BLANK, ts, k + 1);
    c := st.Word(BLANK, ts, k + 2);
    d := st.Word(BLANK, ts, k + 3);
  }

  /** The records of the lines ls. */
  function NetRows(ls: seq<string>): (rs: seq<NetIOCounters>)
    ensures |rs| == |ls|
  {
    if ls == [] then [] else NetRows(ls[..|ls| - 1]) + [NetRow(ls[|ls| - 1])]
  }

  predicate Parsable(ls: seq<string>) {
    forall i {:trigger RowOk(ls[i])} :: 0 <= i < |ls| ==> RowOk(ls[i])
  }

  /** net_io_counters into an array of capacity entries (15 in the library). */
  method NetIoCounters(file: Option<string>, capacity: nat) returns (ret: Option<NetInfo>)
    requires file.Some? ==> Parsable(From(Reads(file.value, 149), 2)) && |From(Reads(file.value, 149), 2)| <= capacity
    ensures ret.Some? <==> file.Some?
    ensures ret.Some? ==> && ret.value.nitems == |From(Reads(file.value, 149), 2)|
                          && Starts(ret.value.iocounters, NetRows(From(Reads(file.value, 149), 2)))
  {
    if file.None? {
      return None;
    }
    var counters := new NetIOCounters[capacity](_ => EMPTY);
    var fp := new Stream(file.value);
    var n := ReadTable(fp, counters, Reads(file.value, 149));
    RecordsAll(Reads(file.value, 149));
    ret := Some(NetInfo(n, counters));
  }

  /** The fgets loop: i counts header lines until ParseRow reuses it. */
  method ReadTable(fp: Stream, counters: array<NetIOCounters>, ghost ls: seq<string>) returns (ninterfaces: nat)
    requires fp.LinesLeft(149, ls, 0)
    requires Parsable(From(ls, 2)) && |From(ls, 2)| <= counters.Length
    modifies fp, counters
    ensures ninterfaces == |From(ls, 2)| && Starts(counters, Records(ls, |ls|))
  {
    hide NetRow, NetRows, Reads, RowOk, Records, Starts, Str;
    var line := new char[200](_ => '\0');
    ghost var k := 0;
    var i := 0;
    ninterfaces := 0;
    NothingRecorded(counters, ls);
    var more := fp.NextLine(line, 149, ls, 0);
    while more
      invariant fp.LinesLeft(149, ls, k + 1) && k <= |ls|
      invariant (more <==> k < |ls|) && (more ==> Str(line, 0, ls[k]))
      invariant i < 2 <==> k < 2
      invariant i < 2 ==> i == k
      invariant ninterfaces == RowsDone(k) && Starts(counters, Records(ls, k))
      decreases |ls| - k
    {
      if i < 2 {
        i := i + 1;
        NothingRecorded(counters, ls);
      } else {
        i := AddRow(line, counters, ninterfaces, ls, k);
        ninterfaces := ninterfaces + 1;
      }
      k := k + 1;
      more := fp.NextLine(line, 149, ls, k);
    }
  }

  /** One data line becomes the next record; the result is what is left in i. */
  method AddRow(line: array<char>, counters: array<NetIOCounters>, n: nat, ghost ls: seq<string>, ghost k: nat) returns (i: int)
    requires 2 <= k < |ls| && Str(line, 0, ls[k]) && Parsable(From(ls, 2)) && n == RowsDone(k) < counters.Length
    requires Starts(counters, Records(ls, k))
    modifies line, counters
    ensures i == 4 && Starts(counters, Records(ls, k + 1))
  {
    RecordsMore(ls, k);
    assert RowOk(From(ls, 2)[k - 2]);
    var nc: NetIOCounters;
    nc, i := ParseRow(line, ls[k]);
    Push(counters, Records(ls, k), n, nc);
  }

  function RowsDone(k: nat): nat {
    if k < 2 then 0 else k - 2
  }

  /** What has been recorded after k lines. */
  ghost function Records(ls: seq<string>, k: nat): (rs: seq<NetIOCounters>)
    requires k <= |ls|
    ensures |rs| == RowsDone(k)
  {
    if k < 2 then [] else NetRows(ls[2..k])
  }

  lemma NothingRecorded(counters: array<NetIOCounters>, ls: seq<string>)
    ensures forall k: nat {:trigger Records(ls, k)} :: k <= 2 && k <= |ls| ==> Starts(counters, Records(ls, k))
  {
  }

  lemma RecordsMore(ls: seq<string>, k: nat)
    requires 2 <= k < |ls|
    ensures Records(ls, k + 1) == Records(ls, k) + [NetRow(ls[k])]
  {
    assert ls[2..k + 1][..k - 2] == ls[2..k];
  }

  lemma RecordsAll(ls: seq<string>)
    ensures Records(ls, |ls|) == NetRows(From(ls, 2))
  {
    if |ls| >= 2 {
      assert ls[2..|ls|] == From(ls, 2);
    }
  }

  lemma {:induction false} NetRowsAt(ls: seq<string>, i: nat)
    requires i < |ls|
    ensures NetRows(ls)[i] == NetRow(ls[i])
    decreases |ls|
  {
    if i < |ls| - 1 {
      NetRowsAt(ls[..|ls| - 1], i);
    }
  }

  // ----- what the text format says

  datatype Interface = Interface(namePad: string, name: string, pads: seq<string>, counts: seq<int>)

  /** What /proc/net/dev can print: a name without blanks or colons, sixteen 64-bit counters. */
  ghost predicate ValidInterface(f: Interface) {
    && Only(f.namePad, {' '}) && f.name != [] && Free(f.name, {' ', '\n', ':'}) && NoNul(f.name)
    && |f.counts| == 16 && Printable(f.pads, f.counts)
  }

  ghost function Printed(f: Interface): string
    requires ValidInterface(f)
  {
    f.namePad + f.name + [':'] + Row(NumberCells(f.pads, f.counts), "\n")
  }

  /** The record a printed interface stands for. */
  ghost function RecordOf(f: Interface): NetIOCounters
    requires ValidInterface(f)
  {
    NetIOCounters(f.name, bytesRecv := f.counts[0], packetsRecv := f.counts[1], errin := f.counts[2],
                  dropin := f.counts[3], bytesSent := f.counts[8], packetsSent := f.counts[9],
                  errout := f.counts[10], dropout := f.counts[11])
  }

  /** The record has the printed name and, of the sixteen counters, the first four of each direction. */
  ghost predicate HasCounts(r: NetIOCounters, f: Interface) {
    && r.name == f.name && |f.counts| == 16
    && r.bytesRecv == f.counts[0] && r.packetsRecv == f.counts[1] && r.errin == f.counts[2] && r.dropin == f.counts[3]
    && r.bytesSent == f.counts[8] && r.packetsSent == f.counts[9] && r.errout == f.counts[10] && r.dropout == f.counts[11]
  }

  /** Parsing a printed row gives its record, although the delimiters change after the name. */
  lemma RowRoundTrips(f: Interface)
    requires ValidInterface(f)
    ensures RowOk(Printed(f)) && NetRow(Printed(f)) == RecordOf(f) && HasCounts(RecordOf(f), f)
  {
    assert Only(f.namePad, NAME_END) by {
      assert Only(f.namePad, {' '});
    }
    NextWord(f.namePad, f.name, ':', Row(NumberCells(f.pads, f.counts), "\n"), NAME_END);
    NumbersRoundTrip(f.pads, f.counts);
  }

  lemma PrintedIsLine(f: Interface)
    requires ValidInterface(f)
    ensures IsLine(Printed(f)) && NoNul(Printed(f))
  {
    NumbersAreLine(f.pads, f.counts);
    assert Free(f.namePad, {'\n'}) by {
      assert Only(f.namePad, {' '});
    }
    assert NoNul(f.namePad) by {
      assert Only(f.namePad, {' '});
    }
    assert forall i :: 0 <= i < |f.name| ==> f.name[i] !in NAME_END;
    LineAfter(f.namePad + f.name + [':'], Row(NumberCells(f.pads, f.counts), "\n"));
  }

  /** For any table of interfaces printed under two header lines, with lines that fit, the parser's
      records are the table's, in order: no header is taken for a row and no row for a header. */
  lemma NetDevRoundTrip(headers: seq<string>, fs: seq<Interface>, lines: seq<string>)
    requires |headers| == 2 && forall i :: 0 <= i < 2 ==> IsLine(headers[i]) && NoNul(headers[i]) && |headers[i]| <= 149
    requires |lines| == |fs|
    requires forall i :: 0 <= i < |fs| ==> ValidInterface(fs[i]) && lines[i] == Printed(fs[i]) && |lines[i]| <= 149
    ensures Parsable(From(Reads(Flatten(headers + lines), 149), 2))
    ensures var rs := NetRows(From(Reads(Flatten(headers + lines), 149), 2));
            |rs| == |fs| && forall i :: 0 <= i < |fs| ==> HasCounts(rs[i], fs[i])
  {
    forall i | 0 <= i < |fs|
      ensures IsLine(lines[i]) && NoNul(lines[i]) && RowOk(lines[i]) && NetRow(lines[i]) == RecordOf(fs[i])
    {
      PrintedIsLine(fs[i]);
      RowRoundTrips(fs[i]);
    }
    ReadsOfLines(headers + lines, 149);
    assert (headers + lines)[2..] == lines;
    forall i | 0 <= i < |fs| ensures HasCounts(NetRows(lines)[i], fs[i]) {
      NetRowsAt(lines, i);
      RowRoundTrips(fs[i]);
    }
  }
}
