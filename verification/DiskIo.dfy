/** Linux disk_io_counters: /proc/diskstats joined with the partitions of /proc/partitions. */
module DiskIo {
  import opened Buffers
  import opened CText
  import opened Columns
  import opened Lines
  import opened Numbers
  import opened Tokenizer

  /** readCount and writeCount are the fields reads and writes. */
  datatype DiskIOCounters = DiskIOCounters(name: string, readBytes: int, writeBytes: int, readCount: int, writeCount: int,
                                           readTime: int, writeTime: int)

  const EMPTY := DiskIOCounters("", 0, 0, 0, 0, 0, 0)

  datatype DiskInfo = DiskInfo(nitems: nat, iocounters: array<DiskIOCounters>)

  // ----- /proc/partitions

  /** The fourth token, which the parser dereferences. */
  function PartName(s: string): string {
    if |Tokens(s, BLANK)| >= 4 then Tokens(s, BLANK)[3] else ""
  }

  predicate PartOk(s: string) {
    |Tokens(s, BLANK)| >= 4
  }

  /** isdigit(name[strlen(name) - 1]) */
  predicate EndsInDigit(name: string) {
    name != [] && IsDigit(name[|name| - 1])
  }

  /** strndup(name, 10) */
  function Truncated(name: string): string {
    if |name| <= 10 then name else name[..10]
  }

  /** The names kept from the lines ls of the table. */
  function Partitions(ls: seq<string>): (ps: seq<string>)
    ensures |ps| <= |ls|
  {
    if ls == [] then []
    else Partitions(ls[..|ls| - 1]) + Kept(PartName(ls[|ls| - 1]))
  }

  function Kept(name: string): seq<string> {
    if EndsInDigit(name) then [Truncated(name)] else []
  }

  predicate PartsOk(ls: seq<string>) {
    forall i {:trigger PartOk(ls[i])} :: 0 <= i < |ls| ==> PartOk(ls[i])
  }

  /** Partitions of the first k lines of the file, two of which are headers. */
  ghost function PartsOf(ls: seq<string>, k: nat): seq<string>
    requires k <= |ls|
  {
    if k < 2 then [] else Partitions(ls[2..k])
  }

  lemma PartsMore(ls: seq<string>, k: nat)
    requires 2 <= k < |ls|
    ensures PartsOf(ls, k + 1) == PartsOf(ls, k) + Kept(PartName(ls[k]))
  {
    hide Kept, PartName;
    assert ls[2..k + 1][..k - 2] == ls[2..k];
  }

  lemma PartsAll(ls: seq<string>)
    ensures PartsOf(ls, |ls|) == Partitions(From(ls, 2))
  {
    if |ls| >= 2 {
      assert ls[2..|ls|] == From(ls, 2);
    }
  }

  lemma {:induction false} PartitionsGrow(ls: seq<string>, k: nat)
    requires k <= |ls|
    ensures Partitions(ls[..k]) <= Partitions(ls)
    decreases |ls|
  {
    if k < |ls| {
      PartitionsGrow(ls[..|ls| - 1], k);
      assert ls[..|ls| - 1][..k] == ls[..k];
    } else {
      assert ls[..k] == ls;
    }
  }

  lemma PartsFit(ls: seq<string>, k: nat)
    requires k <= |ls|
    ensures |PartsOf(ls, k)| <= |Partitions(From(ls, 2))|
  {
    hide Partitions;
    if k >= 2 {
      PartitionsGrow(From(ls, 2), k - 2);
      assert From(ls, 2)[..k - 2] == ls[2..k];
    }
  }

  method ParsePartition(line: array<char>, ghost s: string) returns (name: string)
    requires Str(line, 0, s) && PartOk(s)
    modifies line
    ensures name == PartName(s) && name != []
  {
    hide Tokens;
    ghost var ts := Tokens(s, BLANK);
    var st := new Strtok(line, s);
    var tmp := st.Token(BLANK, ts, 0);
    tmp := st.Token(BLANK, ts, 1);
    tmp := st.Token(BLANK, ts, 2);
    name := st.Word(BLANK, ts, 3);
    TokenNotEmpty(s, BLANK, 3);
  }

  lemma {:induction false} TokenNotEmpty(s: string, d: set<char>, k: nat)
    requires k < |Tokens(s, d)|
    ensures Tokens(s, d)[k] != []
    decreases k
  {
    hide Skip, Tail;
    if k > 0 {
      TokenNotEmpty(Tail(s, d), d, k - 1);
    }
  }

  /** The first fgets loop, into an array for the names (30 in the library). */
  method ReadPartitions(fp: Stream, partitions: array<string>, ghost ls: seq<string>) returns (nparts: nat)
    requires fp.LinesLeft(39, ls, 0)
    requires PartsOk(From(ls, 2)) && |Partitions(From(ls, 2))| <= partitions.Length
    modifies fp, partitions
    ensures nparts == |Partitions(From(ls, 2))| && Starts(partitions, Partitions(From(ls, 2)))
  {
    hide PartName, Partitions, Reads, PartOk, Str, Starts;
    var line := new char[150](_ => '\0');
    ghost var k := 0;
    var i := 0;
    nparts := 0;
    NothingYet(partitions);
    var more := fp.NextLine(line, 39, ls, 0);
    while more
      invariant fp.LinesLeft(39, ls, k + 1) && k <= |ls| && i == k
      invariant (more <==> k < |ls|) && (more ==> Str(line, 0, ls[k]))
      invariant nparts == |PartsOf(ls, k)| && Starts(partitions, PartsOf(ls, k))
      decreases |ls| - k
    {
      if i >= 2 {
        nparts := AddPartition(line, partitions, nparts, ls, k);
      }
      i, k := i + 1, k + 1;
      more := fp.NextLine(line, 39, ls, k);
    }
    PartsAll(ls);
  }

  method AddPartition(line: array<char>, partitions: array<string>, n: nat, ghost ls: seq<string>, ghost k: nat) returns (n': nat)
    requires 2 <= k < |ls| && Str(line, 0, ls[k]) && PartsOk(From(ls, 2))
    requires n == |PartsOf(ls, k)| && Starts(partitions, PartsOf(ls, k))
    requires |Partitions(From(ls, 2))| <= partitions.Length
    modifies line, partitions
    ensures n' == |PartsOf(ls, k + 1)| && Starts(partitions, PartsOf(ls, k + 1))
  {
    hide PartName, Partitions, PartOk;
    assert PartOk(From(ls, 2)[k - 2]);
    PartsMore(ls, k);
    PartsFit(ls, k + 1);
    var tmp := ParsePartition(line, ls[k]);
    n' := n;
    if IsDigit(tmp[|tmp| - 1]) {
      Push(partitions, PartsOf(ls, k), n, Truncated(tmp));
      n' := n + 1;
    }
  }

  // ----- /proc/diskstats

  /** lfind with str_comp over the first n names. */
  method Lfind(key: string, names: array<string>, n: nat, ghost ps: seq<string>) returns (found: bool)
    requires n == |ps| && Starts(names, ps)
    ensures found <==> key in ps
  {
    var i := 0;
    while i < n
      invariant i <= n && key !in ps[..i]
    {
      if names[i] == key {
        assert ps[i] == key;
        return true;
      }
      assert ps[..i + 1] == ps[..i] + [ps[i]];
      i := i + 1;
    }
    assert ps[..i] == ps;
    found := false;
  }

  function StatName(s: string): string {
    if |Tokens(s, BLANK)| >= 3 then Tokens(s, BLANK)[2] else ""
  }

  predicate Matches(s: string, ps: seq<string>) {
    |Tokens(s, BLANK)| >= 3 && Tokens(s, BLANK)[2] in ps
  }

  /** lfind dereferences the name when there is something to compare it with; a matched row has
      eight counters to be read. */
  predicate StatOk(s: string, ps: seq<string>) {
    || ps == []
    || (|Tokens(s, BLANK)| >= 3 && (Matches(s, ps) ==> |Tokens(s, BLANK)| >= 11))
  }

  predicate StatsOk(ls: seq<string>, ps: seq<string>) {
    forall i {:trigger StatOk(ls[i], ps)} :: 0 <= i < |ls| ==> StatOk(ls[i], ps)
  }

  /** unsigned long times int. */
  function Bytes(sectors: nat): nat {
    sectors * 512 % U64
  }

  function FromWords(ts: seq<string>): DiskIOCounters
    requires |ts| >= 11
  {
    DiskIOCounters(ts[2], readCount := StrToUL(ts[3]), readBytes := Bytes(StrToUL(ts[5])), readTime := StrToUL(ts[6]),
                   writeCount := StrToUL(ts[7]), writeBytes := Bytes(StrToUL(ts[9])), writeTime := StrToUL(ts[10]))
  }

  function StatRow(s: string): DiskIOCounters {
    if |Tokens(s, BLANK)| >= 11 then FromWords(Tokens(s, BLANK)) else EMPTY
  }

  /** The records of the matching lines, in the order of the file. */
  function Joined(ls: seq<string>, ps: seq<string>): (rs: seq<DiskIOCounters>)
    ensures |rs| <= |ls|
  {
    if ls == [] then []
    else
      Joined(ls[..|ls| - 1], ps) + if Matches(ls[|ls| - 1], ps) then [StatRow(ls[|ls| - 1])] else []
  }

  lemma JoinedMore(ls: seq<string>, ps: seq<string>, k: nat)
    requires k < |ls|
    ensures Matches(ls[k], ps) ==> Joined(ls[..k + 1], ps) == Joined(ls[..k], ps) + [StatRow(ls[k])]
    ensures !Matches(ls[k], ps) ==> Joined(ls[..k + 1], ps) == Joined(ls[..k], ps)
  {
    assert ls[..k + 1][..k] == ls[..k];
  }

  lemma {:induction false} JoinedGrows(ls: seq<string>, ps: seq<string>, k: nat)
    requires k <= |ls|
    ensures |Joined(ls[..k], ps)| <= |Joined(ls, ps)|
    decreases |ls|
  {
    if k < |ls| {
      JoinedGrows(ls[..|ls| - 1], ps, k);
      assert ls[..|ls| - 1][..k] == ls[..k];
    } else {
      assert ls[..k] == ls;
    }
  }

  /** One line of the second loop: the record if the name is one of the partitions. */
  method ParseStat(line: array<char>, partitions: array<string>, nparts: nat, ghost s: string, ghost ps: seq<string>)
    returns (ci: Option<DiskIOCounters>)
    requires Str(line, 0, s) && nparts == |ps| && Starts(partitions, ps) && StatOk(s, ps)
    modifies line
    ensures ci == if Matches(s, ps) then Some(StatRow(s)) else None
  {
    hide Tokens;
    ghost var ts := Tokens(s, BLANK);
    var st := new Strtok(line, s);
    var tmp := st.Token(BLANK, ts, 0);
    tmp := st.Token(BLANK, ts, 1);
    tmp := st.Token(BLANK, ts, 2);
    if nparts == 0 {  // lfind over nothing looks at nothing
      return None;
    }
    var found := Lfind(tmp.value, partitions, nparts, ps);
    if !found {
      return None;
    }
    var counters := ReadCounters(st, ts, tmp.value);
    ci := Some(counters);
  }

  method ReadCounters(st: Strtok, ghost ts: seq<string>, name: string) returns (ci: DiskIOCounters)
    requires st.Left(BLANK, ts, 3) && |ts| >= 11 && name == ts[2]
    modifies st`save, st`text, st.buf
    ensures ci == FromWords(ts)
  {
    hide Tokens, StrToUL;
    var completed := st.Word(BLANK, ts, 3);
    var merged := st.Word(BLANK, ts, 4);
    var read := st.Word(BLANK, ts, 5);
    var readTime := st.Word(BLANK, ts, 6);
    var writes := st.Word(BLANK, ts, 7);
    merged := st.Word(BLANK, ts, 8);
    var written := st.Word(BLANK, ts, 9);
    var writeTime := st.Word(BLANK, ts, 10);
    ci := DiskIOCounters(name, readCount := StrToUL(completed), readBytes := Bytes(StrToUL(read)),
                         readTime := StrToUL(readTime), writeCount := StrToUL(writes),
                         writeBytes := Bytes(StrToUL(written)), writeTime := StrToUL(writeTime));
  }

  /** The second fgets loop. */
  method ReadStats(fp: Stream, partitions: array<string>, counters: array<DiskIOCounters>, ghost ls: seq<string>,
                   ghost ps: seq<string>) returns (nitems: nat)
    requires fp.LinesLeft(119, ls, 0) && counters.Length == |ps| && Starts(partitions, ps)
    requires StatsOk(ls, ps) && |Joined(ls, ps)| <= |ps|
    modifies fp, counters
    ensures nitems == |Joined(ls, ps)| && Starts(counters, Joined(ls, ps))
  {
    hide Joined, Reads, StatOk, Matches, StatRow, Str, Starts;
    var line := new char[150](_ => '\0');
    ghost var k := 0;
    nitems := 0;
    NothingYet(counters);
    assert Joined(ls[..0], ps) == [] by {
      NothingJoined(ls, ps);
    }
    var more := fp.NextLine(line, 119, ls, 0);
    while more
      invariant fp.LinesLeft(119, ls, k + 1) && k <= |ls|
      invariant (more <==> k < |ls|) && (more ==> Str(line, 0, ls[k]))
      invariant nitems == |Joined(ls[..k], ps)| && Starts(counters, Joined(ls[..k], ps))
      decreases |ls| - k
    {
      nitems := AddStat(line, partitions, counters, nitems, ls, ps, k);
      k := k + 1;
      more := fp.NextLine(line, 119, ls, k);
    }
    assert ls[..k] == ls;
  }

  method AddStat(line: array<char>, partitions: array<string>, counters: array<DiskIOCounters>, n: nat,
                 ghost ls: seq<string>, ghost ps: seq<string>, ghost k: nat) returns (n': nat)
    requires k < |ls| && Str(line, 0, ls[k]) && counters.Length == |ps| && Starts(partitions, ps)
    requires StatsOk(ls, ps) && |Joined(ls, ps)| <= |ps|
    requires n == |Joined(ls[..k], ps)| && Starts(counters, Joined(ls[..k], ps))
    modifies line, counters
    ensures n' == |Joined(ls[..k + 1], ps)| && Starts(counters, Joined(ls[..k + 1], ps))
  {
    hide Joined, StatOk, Matches, StatRow, Str, Starts;
    assert StatOk(ls[k], ps);
    JoinedMore(ls, ps, k);
    JoinedGrows(ls, ps, k + 1);
    n' := n;
    var ci := ParseStat(line, partitions, counters.Length, ls[k], ps);
    if ci.Some? {
      Push(counters, Joined(ls[..k], ps), n, ci.value);
      n' := n + 1;
    }
  }

  lemma NothingJoined(ls: seq<string>, ps: seq<string>)
    ensures Joined(ls[..0], ps) == []
  {
  }

  /** disk_io_counters. The counters array has as many entries as there are partitions, and the
      matched rows must not be more. */
  method DiskIoCounters(parts: Option<string>, stats: Option<string>, capacity: nat) returns (ret: Option<DiskInfo>)
    requires parts.Some? ==> PartsOk(From(Reads(parts.value, 39), 2)) && |Partitions(From(Reads(parts.value, 39), 2))| <= capacity
    requires parts.Some? && stats.Some? ==> var ps := Partitions(From(Reads(parts.value, 39), 2));
             StatsOk(Reads(stats.value, 119), ps) && |Joined(Reads(stats.value, 119), ps)| <= |ps|
    ensures ret.Some? <==> parts.Some? && stats.Some?
    ensures ret.Some? ==> var rs := Joined(Reads(stats.value, 119), Partitions(From(Reads(parts.value, 39), 2)));
                          ret.value.nitems == |rs| && Starts(ret.value.iocounters, rs)
  {
    hide Partitions, Joined, Reads;
    if parts.None? {
      return None;
    }
    var partitions := new string[capacity](_ => "");
    var fp := new Stream(parts.value);
    var nparts := ReadPartitions(fp, partitions, Reads(parts.value, 39));
    ghost var ps := Partitions(From(Reads(parts.value, 39), 2));
    var counters := new DiskIOCounters[nparts](_ => EMPTY);
    if stats.None? {
      return None;
    }
    fp := new Stream(stats.value);
    var nitems := ReadStats(fp, partitions, counters, Reads(stats.value, 119), ps);
    ret := Some(DiskInfo(nitems, counters));
  }

  // ----- the bound

  ghost predicate AllDifferent<T(!new)>(xs: seq<T>) {
    forall i, j :: 0 <= i < j < |xs| ==> xs[i] != xs[j]
  }

  /** No name of ps occurs twice in ns. */
  ghost predicate OnceEach(ns: seq<string>, ps: seq<string>) {
    forall i, j :: 0 <= i < j < |ns| && ns[i] == ns[j] ==> ns[i] !in ps
  }

  function StatNames(ls: seq<string>): (ns: seq<string>)
    ensures |ns| == |ls| && forall i :: 0 <= i < |ls| ==> ns[i] == StatName(ls[i])
  {
    seq(|ls|, i requires 0 <= i < |ls| => StatName(ls[i]))
  }

  function SetOf<T>(xs: seq<T>): set<T> {
    set x | x in xs
  }

  lemma {:induction false} SetOfSize<T(!new)>(xs: seq<T>)
    ensures |SetOf(xs)| <= |xs|
    ensures AllDifferent(xs) ==> |SetOf(xs)| == |xs|
  {
    if xs == [] {
      assert SetOf(xs) == {};
    } else {
      var init, last := xs[..|xs| - 1], xs[|xs| - 1];
      SetOfSize(init);
      assert SetOf(xs) == SetOf(init) + {last} by {
        assert xs == init + [last];
      }
      if AllDifferent(xs) {
        assert last !in init;
      }
    }
  }

  lemma Subset<T>(a: set<T>, b: set<T>)
    requires a <= b
    ensures |a| <= |b|
  {
    assert b == a + (b - a);
  }

  /** The names of the joined records. */
  function RecordNames(rs: seq<DiskIOCounters>): (ns: seq<string>)
    ensures |ns| == |rs| && forall i :: 0 <= i < |rs| ==> ns[i] == rs[i].name
  {
    seq(|rs|, i requires 0 <= i < |rs| => rs[i].name)
  }

  lemma LastName(ls: seq<string>, ps: seq<string>)
    requires ls != [] && StatOk(ls[|ls| - 1], ps)
    ensures var init, last := ls[..|ls| - 1], ls[|ls| - 1];
            && StatNames(ls) == StatNames(init) + [StatName(last)]
            && (Matches(last, ps) ==> StatName(last) in ps)
            && RecordNames(Joined(ls, ps))
               == var xs := RecordNames(Joined(init, ps)); if Matches(last, ps) then xs + [StatName(last)] else xs
  {
    hide Tokens;
  }

  /** The names of the joined records are names of partitions and of rows, and distinct when no
      partition occurs twice in the file. */
  lemma {:induction false} JoinedNames(ls: seq<string>, ps: seq<string>)
    requires StatsOk(ls, ps)
    ensures forall n :: n in RecordNames(Joined(ls, ps)) ==> n in ps && n in StatNames(ls)
    ensures OnceEach(StatNames(ls), ps) ==> AllDifferent(RecordNames(Joined(ls, ps)))
    decreases |ls|
  {
    hide StatOk, Matches, StatRow, StatName, AllDifferent, OnceEach, Joined;
    if ls == [] {
      NoNames(ps);
    } else {
      var init, last := ls[..|ls| - 1], ls[|ls| - 1];
      assert StatsOk(init, ps) by {
        forall i | 0 <= i < |init| ensures StatOk(init[i], ps) {
          assert StatOk(ls[i], ps);
        }
      }
      assert StatOk(ls[|ls| - 1], ps);
      JoinedNames(init, ps);
      LastName(ls, ps);
      if OnceEach(StatNames(ls), ps) {
        OneMoreName(StatNames(init), RecordNames(Joined(init, ps)), StatName(last), ps);
      }
    }
  }

  lemma NoNames(ps: seq<string>)
    ensures RecordNames(Joined([], ps)) == [] && AllDifferent<string>([])
  {
  }

  lemma OneMoreName(ns: seq<string>, xs: seq<string>, n: string, ps: seq<string>)
    requires OnceEach(ns + [n], ps) && forall x :: x in xs ==> x in ns
    requires OnceEach(ns, ps) ==> AllDifferent(xs)
    ensures AllDifferent(xs) && (n in ps ==> AllDifferent(xs + [n]))
  {
    var more := ns + [n];
    assert forall i :: 0 <= i < |ns| ==> more[i] == ns[i];
    forall i | 0 <= i < |ns| && n in ps ensures ns[i] != n {
      assert more[i] == ns[i] && more[|ns|] == n;
    }
    forall j | 0 <= j < |xs| && n in ps ensures xs[j] != n {
      assert xs[j] in xs;
    }
  }

  /** Pigeonhole: when no partition occurs twice in diskstats, the matching rows are not more than the
      partitions, so every write through the cursor stays inside the array. */
  lemma MatchesFit(ls: seq<string>, ps: seq<string>)
    requires StatsOk(ls, ps) && OnceEach(StatNames(ls), ps)
    ensures |Joined(ls, ps)| <= |ps|
  {
    hide Joined, OnceEach;
    var ns := RecordNames(Joined(ls, ps));
    JoinedNames(ls, ps);
    SetOfSize(ns);
    SetOfSize(ps);
    Subset(SetOf(ns), SetOf(ps));
  }

  // ----- what the text formats say

  /** A printed diskstats row: two device numbers, the name, then at least eight counters. */
  datatype Disk = Disk(numbers: seq<Cell>, namePad: string, name: string, pads: seq<string>, counts: seq<int>)

  ghost predicate ValidDisk(f: Disk) {
    && |f.numbers| == 2 && Readable(f.numbers, {' ', '\n'})
    && Only(f.namePad, {' '}) && f.namePad != [] && f.name != [] && Free(f.name, {' ', '\n'})
    && |f.counts| >= 8 && Printable(f.pads, f.counts) && f.pads[0] != []
  }

  ghost function DiskCells(f: Disk): seq<Cell>
    requires ValidDisk(f)
  {
    f.numbers + [Cell(f.namePad, f.name)] + NumberCells(f.pads, f.counts)
  }

  ghost function PrintedDisk(f: Disk): string
    requires ValidDisk(f)
  {
    Row(DiskCells(f), "\n")
  }

  /** The record of a printed row: sector counts become bytes. */
  ghost function RecordOf(f: Disk): DiskIOCounters
    requires ValidDisk(f)
  {
    DiskIOCounters(f.name, readCount := f.counts[0], readBytes := f.counts[2] * 512 % U64, readTime := f.counts[3],
                   writeCount := f.counts[4], writeBytes := f.counts[6] * 512 % U64, writeTime := f.counts[7])
  }

  lemma DiskReadable(f: Disk)
    requires ValidDisk(f)
    ensures Readable(DiskCells(f), BLANK)
  {
    var cs := DiskCells(f);
    assert Only(f.namePad, BLANK) by {
      assert Only(f.namePad, {' '});
    }
    NumbersReadable(f.pads, f.counts);
    forall i | 0 <= i < |cs|
      ensures Only(cs[i].pad, BLANK) && cs[i].word != [] && Free(cs[i].word, BLANK) && (i >= 1 ==> cs[i].pad != [])
    {
      if i >= 3 {
        assert cs[i] == NumberCells(f.pads, f.counts)[i - 3];
      }
    }
  }

  /** The record has the printed name and counters: reads, sectors read in bytes modulo 2^64, time spent
      reading, and the same for writes. */
  ghost predicate HasCounts(r: DiskIOCounters, f: Disk) {
    && r.name == f.name && |f.counts| >= 8
    && r.readCount == f.counts[0] && r.readBytes == f.counts[2] * 512 % 0x1_0000_0000_0000_0000
    && r.readTime == f.counts[3] && r.writeCount == f.counts[4]
    && r.writeBytes == f.counts[6] * 512 % 0x1_0000_0000_0000_0000 && r.writeTime == f.counts[7]
  }

  /** Parsing a printed row gives the name and its record. */
  lemma DiskRoundTrip(f: Disk, ps: seq<string>)
    requires ValidDisk(f)
    ensures StatOk(PrintedDisk(f), ps) && StatName(PrintedDisk(f)) == f.name
    ensures Matches(PrintedDisk(f), ps) <==> f.name in ps
    ensures StatRow(PrintedDisk(f)) == RecordOf(f) && HasCounts(RecordOf(f), f)
  {
    hide Tokens, StrToUL;
    var cs := DiskCells(f);
    DiskReadable(f);
    RowRoundTrip(cs, "\n", BLANK);
    forall i | 0 <= i < 8 ensures StrToUL(Words(cs)[3 + i]) == f.counts[i] {
      assert cs[3 + i] == NumberCells(f.pads, f.counts)[i];
      ReadBack(f.counts[i]);
    }
    var ts := Tokens(PrintedDisk(f), BLANK);
    assert ts[2] == f.name && |ts| >= 11;
    assert StrToUL(ts[3 + 0]) == f.counts[0] && StrToUL(ts[3 + 2]) == f.counts[2] && StrToUL(ts[3 + 3]) == f.counts[3];
    assert StrToUL(ts[3 + 4]) == f.counts[4] && StrToUL(ts[3 + 6]) == f.counts[6] && StrToUL(ts[3 + 7]) == f.counts[7];
  }

  /** The rows of fs whose name is in ps, in order. */
  ghost function Selected(fs: seq<Disk>, ps: seq<string>): seq<DiskIOCounters>
    requires forall i :: 0 <= i < |fs| ==> ValidDisk(fs[i])
  {
    if fs == [] then []
    else
      Selected(fs[..|fs| - 1], ps)
      + if fs[|fs| - 1].name in ps then [RecordOf(fs[|fs| - 1])] else []
  }

  lemma {:induction false} SelectedMeaning(fs: seq<Disk>, ps: seq<string>)
    requires forall i :: 0 <= i < |fs| ==> ValidDisk(fs[i])
    ensures var matched, rs := Filter(fs, (f: Disk) => f.name in ps), Selected(fs, ps);
            |rs| == |matched| && forall i :: 0 <= i < |matched| ==> HasCounts(rs[i], matched[i])
    decreases |fs|
  {
    hide Filter, ValidDisk, HasCounts, PrintedDisk, StatRow, Matches, StatOk, StatName, RecordOf;
    if fs != [] {
      SelectedMeaning(fs[..|fs| - 1], ps);
      FilterLast(fs, (f: Disk) => f.name in ps);
      DiskRoundTrip(fs[|fs| - 1], ps);
    }
  }

  lemma {:induction false} JoinIsSelection(fs: seq<Disk>, ls: seq<string>, ps: seq<string>)
    requires |ls| == |fs| && forall i :: 0 <= i < |fs| ==> ValidDisk(fs[i]) && ls[i] == PrintedDisk(fs[i])
    ensures Joined(ls, ps) == Selected(fs, ps)
    decreases |ls|
  {
    hide Matches, StatRow, RecordOf, PrintedDisk, ValidDisk;
    if fs != [] {
      JoinIsSelection(fs[..|fs| - 1], ls[..|ls| - 1], ps);
      DiskRoundTrip(fs[|fs| - 1], ps);
    }
  }

  /** Printed rows are rows the parser can read, with the names that were printed. */
  lemma PrintedStats(fs: seq<Disk>, ls: seq<string>, ps: seq<string>)
    requires |ls| == |fs| && forall i :: 0 <= i < |fs| ==> ValidDisk(fs[i]) && ls[i] == PrintedDisk(fs[i])
    ensures StatsOk(ls, ps) && forall i :: 0 <= i < |fs| ==> StatNames(ls)[i] == fs[i].name
  {
    hide StatOk, StatName, ValidDisk, PrintedDisk, Matches, StatRow, RecordOf;
    forall i | 0 <= i < |fs| ensures StatOk(ls[i], ps) && StatName(ls[i]) == fs[i].name {
      DiskRoundTrip(fs[i], ps);
    }
  }

  // ----- when the array is large enough

  /** A name the parser can have for a partition: at most ten characters with a digit at the end, or
      the first ten of a longer name. */
  predicate Listable(p: string) {
    |p| == 10 || (|p| < 10 && EndsInDigit(p))
  }

  lemma ListableMeans(p: string)
    ensures Listable(p)
       <==> exists name: string :: name != [] && '0' <= name[|name| - 1] <= '9' && p == name[..Min(10, |name|)]
  {
    if Listable(p) {
      var name := if |p| == 10 then p + "0" else p;
      assert '0' <= name[|name| - 1] <= '9' && p == name[..Min(10, |name|)];
    }
  }

  lemma {:induction false} PartitionsAreListable(ls: seq<string>)
    ensures forall p :: p in Partitions(ls) ==> Listable(p)
    decreases |ls|
  {
    hide PartName;
    if ls != [] {
      PartitionsAreListable(ls[..|ls| - 1]);
    }
  }

  /** No name that a partition can have is printed twice. */
  ghost predicate NamesOnce(fs: seq<Disk>) {
    forall i, j :: 0 <= i < j < |fs| && fs[i].name == fs[j].name ==> !Listable(fs[i].name)
  }

  lemma {:induction false} NameIsSelected(fs: seq<Disk>, i: nat)
    requires i < |fs| && forall k :: 0 <= k < |fs| ==> ValidDisk(fs[k])
    ensures |Selected(fs, [fs[i].name])| >= 1
    decreases |fs|
  {
    hide ValidDisk, RecordOf;
    if i < |fs| - 1 {
      NameIsSelected(fs[..|fs| - 1], i);
    }
  }

  /** A device printed twice makes two records, though its name be the only partition. */
  lemma {:induction false} RepeatedNameOverflows(fs: seq<Disk>, i: nat, j: nat)
    requires i < j < |fs| && forall k :: 0 <= k < |fs| ==> ValidDisk(fs[k])
    requires fs[i].name == fs[j].name
    ensures |Selected(fs, [fs[i].name])| >= 2
    decreases |fs|
  {
    hide ValidDisk, RecordOf;
    var init := fs[..|fs| - 1];
    if j < |fs| - 1 {
      RepeatedNameOverflows(init, i, j);
    } else {
      NameIsSelected(init, i);
    }
  }

  /** The array, with one entry per partition, is large enough whatever the partitions are if and only
      if diskstats does not print a name that a partition can have twice. */
  lemma FitsExactly(fs: seq<Disk>, ls: seq<string>)
    requires |ls| == |fs| && forall i :: 0 <= i < |fs| ==> ValidDisk(fs[i]) && ls[i] == PrintedDisk(fs[i])
    ensures NamesOnce(fs) <==> forall ps :: (forall p :: p in ps ==> Listable(p)) ==> |Joined(ls, ps)| <= |ps|
  {
    hide Joined, Selected, ValidDisk, PrintedDisk, StatOk, StatName, Listable;
    if NamesOnce(fs) {
      forall ps | forall p :: p in ps ==> Listable(p) ensures |Joined(ls, ps)| <= |ps| {
        PrintedStats(fs, ls, ps);
        MatchesFit(ls, ps);
      }
    } else {
      var i, j :| 0 <= i < j < |fs| && fs[i].name == fs[j].name && Listable(fs[i].name);
      RepeatedNameOverflows(fs, i, j);
      JoinIsSelection(fs, ls, [fs[i].name]);
    }
  }

  // ----- the two files

  /** A printed partition row: three numbers, then the name. */
  datatype PartRow = PartRow(numbers: seq<Cell>, namePad: string, name: string)

  ghost predicate ValidPart(r: PartRow) {
    && |r.numbers| == 3 && Readable(r.numbers, {' ', '\n'})
    && Only(r.namePad, {' '}) && r.namePad != [] && r.name != [] && Free(r.name, {' ', '\n'})
  }

  ghost function PrintedPart(r: PartRow): string {
    Row(r.numbers + [Cell(r.namePad, r.name)], "\n")
  }

  lemma PartRoundTrip(r: PartRow)
    requires ValidPart(r)
    ensures PartOk(PrintedPart(r)) && PartName(PrintedPart(r)) == r.name
  {
    var cs := r.numbers + [Cell(r.namePad, r.name)];
    assert Only(r.namePad, BLANK) by {
      assert Only(r.namePad, {' '});
    }
    RowRoundTrip(cs, "\n", BLANK);
  }

  /** What the parser looks for in diskstats, from a printed partition table: the names whose last
      character is one of the digits 0 to 9, in order, each cut to ten characters. */
  lemma {:induction false} PartitionsMeaning(rows: seq<PartRow>, ls: seq<string>)
    requires |ls| == |rows| && forall i :: 0 <= i < |rows| ==> ValidPart(rows[i]) && ls[i] == PrintedPart(rows[i])
    ensures PartsOk(ls)
    ensures var kept := Filter(rows, (r: PartRow) => r.name != [] && '0' <= r.name[|r.name| - 1] <= '9');
            && |Partitions(ls)| == |kept|
            && forall i :: 0 <= i < |kept| ==> Partitions(ls)[i] == kept[i].name[..Min(10, |kept[i].name|)]
    decreases |rows|
  {
    hide Filter, Row, ValidPart, PartOk, PartName, PrintedPart;
    forall i | 0 <= i < |ls| ensures PartOk(ls[i]) {
      PartRoundTrip(rows[i]);
    }
    if rows != [] {
      PartitionsMeaning(rows[..|rows| - 1], ls[..|ls| - 1]);
      FilterLast(rows, (r: PartRow) => r.name != [] && '0' <= r.name[|r.name| - 1] <= '9');
      PartRoundTrip(rows[|rows| - 1]);
      assert rows[|rows| - 1].name[..|rows[|rows| - 1].name|] == rows[|rows| - 1].name;
    }
  }

  /** A name is looked for if and only if it is what ten characters leave of a name that ends in a
      digit. */
  lemma ListedMeans(rows: seq<PartRow>, ls: seq<string>, n: string)
    requires |ls| == |rows| && forall i :: 0 <= i < |rows| ==> ValidPart(rows[i]) && ls[i] == PrintedPart(rows[i])
    ensures n in Partitions(ls)
       <==> exists r :: r in rows && r.name != [] && '0' <= r.name[|r.name| - 1] <= '9' && n == r.name[..Min(10, |r.name|)]
  {
    hide Filter, Partitions, PrintedPart, ValidPart;
    var kept := Filter(rows, (r: PartRow) => r.name != [] && '0' <= r.name[|r.name| - 1] <= '9');
    PartitionsMeaning(rows, ls);
    if n in Partitions(ls) {
      var i :| 0 <= i < |Partitions(ls)| && Partitions(ls)[i] == n;
      assert kept[i] in kept;
    }
    if r :| r in rows && r.name != [] && '0' <= r.name[|r.name| - 1] <= '9' && n == r.name[..Min(10, |r.name|)] {
      assert r in kept;
      var i :| 0 <= i < |kept| && kept[i] == r;
      assert Partitions(ls)[i] == n;
    }
  }

  /** A numbered partition is looked for, under the first ten characters of its name. */
  lemma NumberedIsListed(rows: seq<PartRow>, ls: seq<string>, i: nat, disk: string, k: nat)
    requires |ls| == |rows| && forall j :: 0 <= j < |rows| ==> ValidPart(rows[j]) && ls[j] == PrintedPart(rows[j])
    requires i < |rows| && rows[i].name == disk + Decimal(k)
    ensures rows[i].name[..Min(10, |rows[i].name|)] in Partitions(ls)
  {
    hide Partitions, PrintedPart, ValidPart;
    var name, digits := rows[i].name, Decimal(k);
    assert name[|name| - 1] == digits[|digits| - 1];
    assert rows[i] in rows;
    ListedMeans(rows, ls, name[..Min(10, |name|)]);
  }

  /** A device whose name ends in a digit is found in diskstats under that name if and only if it has
      at most ten characters. */
  lemma FoundExactly(rows: seq<PartRow>, ls: seq<string>, i: nat)
    requires |ls| == |rows| && forall j :: 0 <= j < |rows| ==> ValidPart(rows[j]) && ls[j] == PrintedPart(rows[j])
    requires i < |rows| && rows[i].name != [] && '0' <= rows[i].name[|rows[i].name| - 1] <= '9'
    ensures rows[i].name in Partitions(ls) <==> |rows[i].name| <= 10
  {
    hide Partitions, PrintedPart, ValidPart;
    var name := rows[i].name;
    assert rows[i] in rows;
    assert name[..|name|] == name;
    ListedMeans(rows, ls, name);
  }

  /** With short names, the names looked for are the digit-ending ones themselves. */
  lemma ShortNamesListed(rows: seq<PartRow>, ls: seq<string>)
    requires |ls| == |rows| && forall i :: 0 <= i < |rows| ==> ValidPart(rows[i]) && ls[i] == PrintedPart(rows[i])
    requires forall r :: r in rows ==> |r.name| <= 10
    ensures var kept := Filter(rows, (r: PartRow) => r.name != [] && '0' <= r.name[|r.name| - 1] <= '9');
            |Partitions(ls)| == |kept| && forall i :: 0 <= i < |kept| ==> Partitions(ls)[i] == kept[i].name
  {
    hide Partitions, PrintedPart, ValidPart;
    var kept := Filter(rows, (r: PartRow) => r.name != [] && '0' <= r.name[|r.name| - 1] <= '9');
    PartitionsMeaning(rows, ls);
    forall i | 0 <= i < |kept| ensures Partitions(ls)[i] == kept[i].name {
      assert kept[i] in kept;
      assert kept[i].name[..|kept[i].name|] == kept[i].name;
    }
  }

  /** The join, on printed tables whose lines fit: every row can be read; the partitions looked for are
      the names that end in a digit, cut to ten characters; and the result is, in diskstats order,
      exactly the rows with one of these names. It fits in the array when no name a partition can have
      is printed twice. */
  lemma DiskJoinRoundTrip(headers: seq<string>, rows: seq<PartRow>, plines: seq<string>, fs: seq<Disk>, slines: seq<string>)
    requires |headers| == 2 && |plines| == |rows| && |slines| == |fs|
    requires forall i :: 0 <= i < 2 ==> IsLine(headers[i]) && NoNul(headers[i]) && |headers[i]| <= 39
    requires forall i :: 0 <= i < |rows| ==> ValidPart(rows[i]) && plines[i] == PrintedPart(rows[i])
    requires forall i :: 0 <= i < |rows| ==> IsLine(plines[i]) && NoNul(plines[i]) && |plines[i]| <= 39
    requires forall i :: 0 <= i < |fs| ==> ValidDisk(fs[i]) && slines[i] == PrintedDisk(fs[i])
    requires forall i :: 0 <= i < |fs| ==> IsLine(slines[i]) && NoNul(slines[i]) && |slines[i]| <= 119
    ensures PartsOk(From(Reads(Flatten(headers + plines), 39), 2))
    ensures var ps := Partitions(From(Reads(Flatten(headers + plines), 39), 2));
            var kept := Filter(rows, (r: PartRow) => r.name != [] && '0' <= r.name[|r.name| - 1] <= '9');
            && |ps| == |kept| && (forall i :: 0 <= i < |kept| ==> ps[i] == kept[i].name[..Min(10, |kept[i].name|)])
            && StatsOk(Reads(Flatten(slines), 119), ps)
    ensures var ps := Partitions(From(Reads(Flatten(headers + plines), 39), 2));
            var matched, rs := Filter(fs, (f: Disk) => f.name in ps), Joined(Reads(Flatten(slines), 119), ps);
            && |rs| == |matched| && (forall i :: 0 <= i < |matched| ==> HasCounts(rs[i], matched[i]))
            && (NamesOnce(fs) ==> |rs| <= |ps|)
  {
    hide Reads, Partitions, Joined, PrintedDisk, PrintedPart, ValidDisk, ValidPart, StatOk, PartOk, StatName, Selected,
      Filter, HasCounts, Listable;
    ReadsOfLines(headers + plines, 39);
    assert From(headers + plines, 2) == plines;
    ReadsOfLines(slines, 119);
    var ps := Partitions(plines);
    PartitionsMeaning(rows, plines);
    PartitionsAreListable(plines);
    JoinIsSelection(fs, slines, ps);
    SelectedMeaning(fs, ps);
    PrintedStats(fs, slines, ps);
    FitsExactly(fs, slines);
  }
}
