/** /proc/stat: parse_cpu_times and cpu_times. */
module CpuStat {
  import opened CText
  import opened Columns
  import opened Lines
  import opened Numbers
  import opened Tokenizer

  datatype CpuTimes = CpuTimes(user: real, system: real, idle: real, nice: real, iowait: real, irq: real,
                               softirq: real, steal: real, guest: real, guestNice: real)

  const ZERO := CpuTimes(0.0, 0.0, 0.0, 0.0, 0.0, 0.0, 0.0, 0.0, 0.0, 0.0)

  /** Tick counts in the order of the text (user nice system idle ...) as seconds in named fields. */
  function FromTicks(v: seq<int>, ticks: real): CpuTimes
    requires |v| == 10 && ticks != 0.0
  {
    CpuTimes(user := v[0] as real / ticks, nice := v[1] as real / ticks, system := v[2] as real / ticks,
             idle := v[3] as real / ticks, iowait := v[4] as real / ticks, irq := v[5] as real / ticks,
             softirq := v[6] as real / ticks, steal := v[7] as real / ticks, guest := v[8] as real / ticks,
             guestNice := v[9] as real / ticks)
  }

  /** The ten counters after the label. */
  function Counters(ts: seq<string>): (v: seq<int>)
    requires |ts| >= 11
    ensures |v| == 10
  {
    ToNumbers(ts[1..11])
  }

  function ParseTokens(ts: seq<string>, ticks: real): Option<CpuTimes>
    requires ticks != 0.0
  {
    if |ts| >= 11 then Some(FromTicks(Counters(ts), ticks)) else None
  }

  function ParseCpu(s: string, ticks: real): Option<CpuTimes>
    requires ticks != 0.0
  {
    ParseTokens(Tokens(s, SPACE), ticks)
  }

  function Taken(ts: seq<string>, i: nat): seq<string> {
    if 1 + i <= |ts| then ts[1..1 + i] else []
  }

  lemma TakenMore(ts: seq<string>, values: seq<int>, i: nat)
    requires i + 1 < |ts| && i < |values| && values[..i] == ToNumbers(Taken(ts, i))
    ensures values[i := StrToUL(ts[i + 1])][..i + 1] == ToNumbers(Taken(ts, i + 1))
  {
    assert Taken(ts, i + 1)[..i] == Taken(ts, i);
    var more := values[i := StrToUL(ts[i + 1])];
    assert more[..i + 1] == values[..i] + [StrToUL(ts[i + 1])];
  }

  /** The token loop of parse_cpu_times: how many counters it read, and the values buffer. */
  method ReadCounters(line: array<char>, ghost s: string) returns (i: nat, values: seq<int>)
    requires Str(line, 0, s)
    modifies line
    ensures |values| == 10
    ensures var ts := Tokens(s, SPACE);
            (i == 10 <==> |ts| >= 11) && (i == 10 ==> values == ToNumbers(Taken(ts, 10)))
  {
    hide Tokens, ToNumbers, StrToUL;
    ghost var ts := Tokens(s, SPACE);
    values := seq(10, _ => 0);
    var st := new Strtok(line, s);
    var pos := st.Token(SPACE, ts, 0);
    pos := st.Token(SPACE, ts, 1);
    i := 0;
    while i < 10 && pos.Some?
      invariant i <= 10 && st.buf == line && (i == 0 || i < |ts|)
      invariant st.Left(SPACE, ts, i + 2) && pos == Pick(ts, i + 1)
      invariant |values| == 10 && values[..i] == ToNumbers(Taken(ts, i))
    {
      TakenMore(ts, values, i);
      values := values[i := StrToUL(pos.value)];
      pos := st.Token(SPACE, ts, i + 2);
      i := i + 1;
    }
    assert i == 10 ==> values == values[..i];
  }

  /** parse_cpu_times: None is the -1 return, which leaves *ret alone. */
  method ParseCpuTimes(line: array<char>, ticks: real, ghost s: string) returns (ret: Option<CpuTimes>)
    requires Str(line, 0, s) && ticks != 0.0
    modifies line
    ensures ret == ParseCpu(s, ticks)
  {
    var i, values := ReadCounters(line, s);
    if i != 10 {
      return None;
    }
    ret := Some(FromTicks(values, ticks));
  }

  // ----- what the text format says

  /** A cpu line: label, then counters, each after some blanks, the last one before the newline. */
  function CpuLine(head: string, pads: seq<string>, v: seq<int>): string
    requires |pads| == |v| && forall i :: 0 <= i < |v| ==> v[i] >= 0
  {
    Row(LabelledCells(head, pads, v), "")
  }

  lemma CpuLineTokens(head: string, pads: seq<string>, v: seq<int>)
    requires Labelled(head, pads, v, {' '})
    ensures |Tokens(CpuLine(head, pads, v), SPACE)| == 1 + |v|
    ensures |v| >= 10 ==> Counters(Tokens(CpuLine(head, pads, v), SPACE)) == v[..10]
  {
    hide StrToUL, Tokens, Free, Only;
    LabelledRoundTrip(head, pads, v, SPACE);
    var ts := Tokens(CpuLine(head, pads, v), SPACE);
    if |v| >= 10 {
      forall i | 0 <= i < 10 ensures ToNumbers(ts[1..11])[i] == v[i] {
        ToNumbersAt(ts[1..11], i);
      }
    }
  }

  /** Printing counters as a cpu line and parsing it: ten or more give each of the first ten over
      the clock rate in its own field; fewer are an error. */
  lemma CpuLineRoundTrip(head: string, pads: seq<string>, v: seq<int>, ticks: real)
    requires Labelled(head, pads, v, {' '}) && ticks != 0.0
    ensures ParseCpu(CpuLine(head, pads, v), ticks)
         == if |v| < 10 then None
            else Some(CpuTimes(user := v[0] as real / ticks, nice := v[1] as real / ticks,
                               system := v[2] as real / ticks, idle := v[3] as real / ticks,
                               iowait := v[4] as real / ticks, irq := v[5] as real / ticks,
                               softirq := v[6] as real / ticks, steal := v[7] as real / ticks,
                               guest := v[8] as real / ticks, guestNice := v[9] as real / ticks))
  {
    CpuLineTokens(head, pads, v);
    var ts := Tokens(CpuLine(head, pads, v), SPACE);
    if |v| >= 10 {
      assert ParseTokens(ts, ticks) == Some(FromTicks(v[..10], ticks));
    }
  }

  // ----- cpu_times

  predicate IsCpu(s: string) {
    "cpu" <= s
  }

  /** cpu_times(true) after the first line: one entry per cpu line until a line of another kind. An
      unparsable cpu line, or the end of the file, is an error. */
  function PerCpu(ls: seq<string>, ticks: real): Option<seq<CpuTimes>>
    requires ticks != 0.0
  {
    if ls == [] then None
    else if !IsCpu(ls[0]) then Some([])
    else
      var c := ParseCpu(ls[0], ticks);
      var cs := PerCpu(ls[1..], ticks);
      if c.Some? && cs.Some? then Some([c.value] + cs.value) else None
  }

  /** How many entries get written. */
  function Written(ls: seq<string>, ticks: real): nat
    requires ticks != 0.0
  {
    if ls == [] || !IsCpu(ls[0]) || ParseCpu(ls[0], ticks).None? then 0 else 1 + Written(ls[1..], ticks)
  }

  /** Success with n entries means exactly: n parsable cpu lines, entry i the parse of line i, then a
      line that is no cpu line. */
  lemma {:induction false} PerCpuMeaning(ls: seq<string>, cs: seq<CpuTimes>, ticks: real)
    requires ticks != 0.0
    ensures PerCpu(ls, ticks) == Some(cs)
       <==> (&& |cs| < |ls| && !("cpu" <= ls[|cs|])
             && forall i :: 0 <= i < |cs| ==> "cpu" <= ls[i] && ParseCpu(ls[i], ticks) == Some(cs[i]))
  {
    hide ParseCpu;
    if ls != [] && IsCpu(ls[0]) && cs != [] {
      PerCpuMeaning(ls[1..], cs[1..], ticks);
      assert cs == [cs[0]] + cs[1..];
      assert forall i :: 0 <= i < |ls[1..]| ==> ls[1..][i] == ls[i + 1];
      assert forall i :: 0 <= i < |cs[1..]| ==> cs[1..][i] == cs[i + 1];
      assert forall i :: 1 <= i < |cs| ==> cs[i] == cs[1..][i - 1];
      assert forall i :: 1 <= i < |ls| ==> ls[i] == ls[1..][i - 1];
    }
  }

  lemma {:induction false} WrittenOnSuccess(ls: seq<string>, ticks: real)
    requires ticks != 0.0 && PerCpu(ls, ticks).Some?
    ensures Written(ls, ticks) == |PerCpu(ls, ticks).value|
  {
    if IsCpu(ls[0]) {
      WrittenOnSuccess(ls[1..], ticks);
    }
  }

  /** cpu_times(false): the first line. */
  method TotalCpuTimes(file: Option<string>, ticks: real) returns (ret: Option<CpuTimes>)
    requires ticks != 0.0
    ensures file.None? ==> ret == None
    ensures file.Some? ==> var ls := Reads(file.value, 139);
                           ret == if ls == [] then None else ParseCpu(ls[0], ticks)
  {
    if file.None? {
      return None;
    }
    ghost var ls := Reads(file.value, 139);
    var fp := new Stream(file.value);
    var line := new char[150](_ => '\0');
    var more := fp.NextLine(line, 139, ls, 0);
    if !more {
      return None;
    }
    ret := ParseCpuTimes(line, ticks, ls[0]);
  }

  /** cpu_times(true) into an array of capacity entries (20 in the library). */
  method EachCpuTimes(file: Option<string>, ticks: real, capacity: nat) returns (ret: Option<array<CpuTimes>>)
    requires ticks != 0.0
    requires file.Some? ==> Written(From(Reads(file.value, 139), 1), ticks) <= capacity
    ensures file.None? ==> ret.None?
    ensures file.Some? ==> (ret.Some? <==> PerCpu(From(Reads(file.value, 139), 1), ticks).Some?)
    ensures ret.Some? ==> HoldsThenZeros(ret.value, capacity, PerCpu(From(Reads(file.value, 139), 1), ticks).value)
  {
    if file.None? {
      return None;
    }
    ghost var ls := Reads(file.value, 139);
    var fp := new Stream(file.value);
    var line := new char[150](_ => '\0');
    var more := fp.NextLine(line, 139, ls, 0);
    if !more {
      return None;
    }
    var times := new CpuTimes[capacity](_ => ZERO);
    var ok := FillCpuTimes(fp, line, times, ticks, From(Reads(file.value, 139), 1));
    ret := if ok then Some(times) else None;
  }

  /** cs, then zeros up to the capacity. */
  ghost predicate HoldsThenZeros(times: array<CpuTimes>, capacity: nat, cs: seq<CpuTimes>)
    reads times
  {
    && times.Length == capacity && |cs| <= capacity
    && (forall i :: 0 <= i < |cs| ==> times[i] == cs[i])
    && forall i :: |cs| <= i < capacity ==> times[i] == ZERO
  }

  datatype Scan = Failed | Finished | Entry(times: CpuTimes)

  /** What one round of the while (1) loop finds in the unread lines. */
  function ScanLine(ls: seq<string>, ticks: real): Scan
    requires ticks != 0.0
  {
    if ls == [] then Failed
    else if !IsCpu(ls[0]) then Finished
    else
      var c := ParseCpu(ls[0], ticks);
      if c.None? then Failed else Entry(c.value)
  }

  method ScanCpu(fp: Stream, line: array<char>, ticks: real, ghost ls: seq<string>, ghost k: nat) returns (e: Scan)
    requires fp.LinesLeft(139, ls, k) && line.Length == 150 && ticks != 0.0
    modifies fp, line
    ensures fp.LinesLeft(139, ls, k + 1) && e == ScanLine(From(ls, k), ticks)
    ensures e.Entry? ==> k < |ls|
  {
    var more := fp.NextLine(line, 139, ls, k);
    if !more {
      return Failed;
    }
    var isCpu := StartsWith(line, "cpu", ls[k]);
    if !isCpu {
      return Finished;
    }
    var t := ParseCpuTimes(line, ticks, ls[k]);
    e := if t.None? then Failed else Entry(t.value);
  }

  /** The while (1) loop of cpu_times; false is a jump to its error block. */
  method FillCpuTimes(fp: Stream, line: array<char>, times: array<CpuTimes>, ticks: real, ghost ls: seq<string>) returns (ok: bool)
    requires fp.LinesLeft(139, ls, 0) && line.Length == 150 && ticks != 0.0
    requires HoldsThenZeros(times, times.Length, [])
    requires Written(ls, ticks) <= times.Length
    modifies fp, line, times
    ensures ok <==> PerCpu(ls, ticks).Some?
    ensures ok ==> HoldsThenZeros(times, times.Length, PerCpu(ls, ticks).value)
  {
    ghost var done := [];
    var i := 0;
    NothingDone(PerCpu(ls, ticks));
    while true
      invariant fp.LinesLeft(139, ls, i) && |done| == i <= |ls|
      invariant HoldsThenZeros(times, times.Length, done)
      invariant i + Written(From(ls, i), ticks) <= times.Length
      invariant Prepend(done, PerCpu(From(ls, i), ticks)) == PerCpu(ls, ticks)
      decreases |ls| - i
    {
      RoundStep(ls, i, done, ticks);
      var e := ScanCpu(fp, line, ticks, ls, i);
      if !e.Entry? {
        return e.Finished?;
      }
      StoreEntry(times, i, e.times, done);
      done := done + [e.times];
      i := i + 1;
    }
  }

  /** *(ret + i) = the parsed entry. */
  method StoreEntry(times: array<CpuTimes>, i: nat, t: CpuTimes, ghost done: seq<CpuTimes>)
    requires i == |done| < times.Length && HoldsThenZeros(times, times.Length, done)
    modifies times
    ensures HoldsThenZeros(times, times.Length, done + [t])
  {
    times[i] := t;
  }

  lemma NothingDone<T>(rest: Option<seq<T>>)
    ensures Prepend([], rest) == rest
  {
    if rest.Some? {
      assert [] + rest.value == rest.value;
    }
  }

  /** How one round moves the result and the room needed. */
  lemma RoundStep(ls: seq<string>, k: nat, done: seq<CpuTimes>, ticks: real)
    requires ticks != 0.0 && k <= |ls|
    ensures var rest, e := From(ls, k), ScanLine(From(ls, k), ticks);
            && (e.Failed? ==> PerCpu(rest, ticks) == None)
            && (e.Finished? ==> Prepend(done, PerCpu(rest, ticks)) == Some(done))
            && (e.Entry? ==> && Written(rest, ticks) == 1 + Written(From(ls, k + 1), ticks)
                             && Prepend(done, PerCpu(rest, ticks))
                                == Prepend(done + [e.times], PerCpu(From(ls, k + 1), ticks)))
  {
    var rest, e := From(ls, k), ScanLine(From(ls, k), ticks);
    if e.Entry? {
      assert rest[1..] == From(ls, k + 1);
      PrependMore(done, e.times, PerCpu(rest[1..], ticks));
    } else if e.Finished? {
      assert done + [] == done;
    }
  }

  function Prepend<T>(done: seq<T>, rest: Option<seq<T>>): Option<seq<T>> {
    if rest.Some? then Some(done + rest.value) else None
  }

  lemma PrependMore<T>(done: seq<T>, x: T, rest: Option<seq<T>>)
    ensures Prepend(done + [x], rest) == Prepend(done, Prepend([x], rest))
  {
    if rest.Some? {
      assert done + [x] + rest.value == done + ([x] + rest.value);
    }
  }

  /** A /proc/stat that starts with the total line and n parsable cpu lines that fit, and goes on with
      anything that is no cpu line, however long: entry i is the parse of cpu line i. */
  lemma PerCpuRoundTrip(total: string, cpus: seq<string>, tail: string, ticks: real)
    requires ticks != 0.0
    requires var ls := [total] + cpus; forall i :: 0 <= i < |ls| ==> IsLine(ls[i]) && NoNul(ls[i]) && |ls[i]| <= 139
    requires forall i :: 0 <= i < |cpus| ==> "cpu" <= cpus[i] && ParseCpu(cpus[i], ticks).Some?
    requires tail != [] && !("cpu" <= tail)
    ensures PerCpu(From(Reads(Flatten([total] + cpus) + tail, 139), 1), ticks)
         == Some(seq(|cpus|, i requires 0 <= i < |cpus| => ParseCpu(cpus[i], ticks).value))
  {
    hide ParseCpu, Reads;
    ReadsOfPrefix([total] + cpus, tail, 139);
    FirstRead(tail, 139);
    var rest := cpus + Reads(tail, 139);
    assert ([total] + cpus + Reads(tail, 139))[1..] == rest;
    var cs := seq(|cpus|, i requires 0 <= i < |cpus| => ParseCpu(cpus[i], ticks).value);
    PerCpuMeaning(rest, cs, ticks);
  }

  /** The counters of one cpu, and the blanks they are printed with. */
  datatype CpuRow = CpuRow(pads: seq<string>, v: seq<int>)

  /** Every field has its own counter of the row over the clock rate. */
  ghost predicate HasTicks(t: CpuTimes, v: seq<int>, ticks: real)
    requires ticks != 0.0
  {
    && |v| >= 10 && t.user == v[0] as real / ticks && t.nice == v[1] as real / ticks && t.system == v[2] as real / ticks
    && t.idle == v[3] as real / ticks && t.iowait == v[4] as real / ticks && t.irq == v[5] as real / ticks
    && t.softirq == v[6] as real / ticks && t.steal == v[7] as real / ticks && t.guest == v[8] as real / ticks
    && t.guestNice == v[9] as real / ticks
  }

  /** The whole file, as the kernel prints it: a total line, the lines cpu0, cpu1, and so on, then the
      interrupt counts and whatever follows. There is one entry per cpu, in order. */
  lemma StatFileRoundTrip(total: string, cpus: seq<CpuRow>, lines: seq<string>, tail: string, ticks: real)
    requires ticks != 0.0 && |lines| == |cpus| && "intr" <= tail
    requires forall i :: 0 <= i < |cpus| ==>
      && Labelled("cpu" + Decimal(i), cpus[i].pads, cpus[i].v, {' '}) && |cpus[i].v| >= 10
      && lines[i] == CpuLine("cpu" + Decimal(i), cpus[i].pads, cpus[i].v)
    requires var ls := [total] + lines; forall i :: 0 <= i < |ls| ==> IsLine(ls[i]) && NoNul(ls[i]) && |ls[i]| <= 139
    ensures var r := PerCpu(From(Reads(Flatten([total] + lines) + tail, 139), 1), ticks);
            r.Some? && |r.value| == |cpus| && forall i :: 0 <= i < |cpus| ==> HasTicks(r.value[i], cpus[i].v, ticks)
  {
    hide ParseCpu, Reads, CpuLine, Labelled, IsLine, NoNul, Decimal;
    forall i | 0 <= i < |cpus|
      ensures "cpu" <= lines[i] && ParseCpu(lines[i], ticks).Some?
      ensures HasTicks(ParseCpu(lines[i], ticks).value, cpus[i].v, ticks)
    {
      CpuLineRoundTrip("cpu" + Decimal(i), cpus[i].pads, cpus[i].v, ticks);
      StartsWithLabel("cpu", Decimal(i), cpus[i].pads, cpus[i].v);
    }
    assert tail[0] == 'i';
    PerCpuRoundTrip(total, lines, tail, ticks);
  }

  lemma StartsWithLabel(word: string, number: string, pads: seq<string>, v: seq<int>)
    requires Labelled(word + number, pads, v, {' '})
    ensures word <= CpuLine(word + number, pads, v)
  {
    assert LabelledCells(word + number, pads, v)[0] == Cell("", word + number);
  }
}
