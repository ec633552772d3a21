/** virtual_memory: the scan of /proc/meminfo. */
module Meminfo {
  import opened CText
  import opened Columns
  import opened Lines
  import opened Numbers
  import opened Tokenizer

  const COLON: set<char> := {':'}

  /** ULLONG_MAX, the marker of a key not seen yet. */
  const UNSET: nat := U64 - 1

  /** The token after the key, which the scan dereferences. */
  function ValueWord(s: string): string {
    Head(Tail(s, COLON), SPACE)
  }

  /** strtoull(...) * 1024 in unsigned long long. */
  function ValueOf(s: string): nat {
    StrToUL(ValueWord(s)) * 1024 % U64
  }

  predicate IsKey(s: string) {
    "Cached:" <= s || "Inactive:" <= s || "Active:" <= s
  }

  predicate LineOk(s: string) {
    IsKey(s) ==> ValueWord(s) != []
  }

  predicate LinesOk(ls: seq<string>) {
    forall i {:trigger LineOk(ls[i])} :: 0 <= i < |ls| ==> LineOk(ls[i])
  }

  /** The value on the last line with the key. */
  function LastValue(ls: seq<string>, key: string): Option<nat> {
    if ls == [] then None
    else if key <= ls[|ls| - 1] then Some(ValueOf(ls[|ls| - 1]))
    else LastValue(ls[..|ls| - 1], key)
  }

  /** Line k is the last one with the key. */
  ghost predicate LastLine(ls: seq<string>, key: string, k: nat) {
    k < |ls| && key <= ls[k] && forall j :: k < j < |ls| ==> !(key <= ls[j])
  }

  lemma {:induction false} LastValueMeaning(ls: seq<string>, key: string)
    ensures LastValue(ls, key) == None <==> forall j :: 0 <= j < |ls| ==> !(key <= ls[j])
    ensures forall k: nat :: LastLine(ls, key, k) ==> LastValue(ls, key) == Some(ValueOf(ls[k]))
    decreases |ls|
  {
    hide ValueOf;
    if ls != [] && !(key <= ls[|ls| - 1]) {
      var init := ls[..|ls| - 1];
      LastValueMeaning(init, key);
      forall k: nat | LastLine(ls, key, k) ensures LastLine(init, key, k) && init[k] == ls[k] {
      }
      assert forall j :: 0 <= j < |ls| - 1 ==> ls[j] == init[j];
    }
  }

  datatype MemInfo = MemInfo(cached: nat, active: nat, inactive: nat)

  /** What the scan reports: all three values, or three zeros. */
  function Summary(ls: seq<string>): MemInfo {
    var c, a, i := LastValue(ls, "Cached:"), LastValue(ls, "Active:"), LastValue(ls, "Inactive:");
    if c.Some? && a.Some? && i.Some? then MemInfo(c.value, a.value, i.value) else MemInfo(0, 0, 0)
  }

  /** A stored value is a multiple of 1024 even after wrapping, and the marker is not. */
  lemma ValueIsNotUnset(s: string)
    ensures ValueOf(s) % 1024 == 0 && ValueOf(s) < U64 && ValueOf(s) != UNSET
  {
    WrappedMultiple(StrToUL(ValueWord(s)));
  }

  lemma WrappedMultiple(n: nat)
    ensures n * 1024 % U64 % 1024 == 0
  {
    var q := n * 1024 / U64;
    assert n * 1024 % U64 == n * 1024 - q * U64;
    assert n * 1024 % U64 == (n - q * 0x40_0000_0000_0000) * 1024;
    var m := n - q * 0x40_0000_0000_0000;
    assert m * 1024 % 1024 == 0;
  }

  /** A variable of the scan holds the last value, or the marker. */
  ghost predicate Tracks(x: nat, v: Option<nat>) {
    x == if v.Some? then v.value else UNSET
  }

  lemma LastValueMore(ls: seq<string>, k: nat, key: string)
    requires k < |ls|
    ensures LastValue(ls[..k + 1], key) == if key <= ls[k] then Some(ValueOf(ls[k])) else LastValue(ls[..k], key)
  {
    assert ls[..k + 1][..k] == ls[..k];
  }

  lemma {:induction false} LastValueSet(ls: seq<string>, key: string)
    ensures LastValue(ls, key).Some? ==> LastValue(ls, key).value != UNSET
    decreases |ls|
  {
    hide ValueOf;
    if ls != [] {
      ValueIsNotUnset(ls[|ls| - 1]);
      LastValueSet(ls[..|ls| - 1], key);
    }
  }

  /** The keys are no prefixes of each other, so the order of the tests does not matter. */
  lemma KeysExclude(s: string)
    ensures "Cached:" <= s ==> !("Inactive:" <= s) && !("Active:" <= s)
    ensures "Inactive:" <= s ==> !("Active:" <= s)
  {
    if "Cached:" <= s {
      assert s[0] == 'C';
    } else if "Inactive:" <= s {
      assert s[0] == 'I';
    }
  }

  /** strtok(line, ":"); strtoull(strtok(NULL, " "), NULL, 10) * 1024 */
  method ParseValue(line: array<char>, ghost s: string) returns (v: nat)
    requires Str(line, 0, s) && ValueWord(s) != []
    modifies line
    ensures v == ValueOf(s)
  {
    hide StrToUL, Head, Tail;
    var st := new Strtok(line, s);
    var tmp := st.Next(COLON);
    tmp := st.Next(SPACE);
    ReadStrIs(line, tmp.value, ValueWord(s));
    v := StrToUL(ReadStr(line, tmp.value)) * 1024 % U64;
  }

  /** One line of the scan. */
  method ScanLine(line: array<char>, cached: nat, active: nat, inactive: nat, ghost ls: seq<string>, ghost k: nat)
    returns (cached': nat, active': nat, inactive': nat)
    requires k < |ls| && Str(line, 0, ls[k]) && LineOk(ls[k])
    requires Tracks(cached, LastValue(ls[..k], "Cached:")) && Tracks(active, LastValue(ls[..k], "Active:"))
    requires Tracks(inactive, LastValue(ls[..k], "Inactive:"))
    modifies line
    ensures Tracks(cached', LastValue(ls[..k + 1], "Cached:")) && Tracks(active', LastValue(ls[..k + 1], "Active:"))
    ensures Tracks(inactive', LastValue(ls[..k + 1], "Inactive:"))
  {
    hide ValueOf, LastValue, ValueWord;
    KeysExclude(ls[k]);
    LastValueMore(ls, k, "Cached:");
    LastValueMore(ls, k, "Active:");
    LastValueMore(ls, k, "Inactive:");
    cached', active', inactive' := cached, active, inactive;
    var hit := StartsWith(line, "Cached:", ls[k]);
    if hit {
      cached' := ParseValue(line, ls[k]);
      return;
    }
    hit := StartsWith(line, "Inactive:", ls[k]);
    if hit {
      inactive' := ParseValue(line, ls[k]);
      return;
    }
    hit := StartsWith(line, "Active:", ls[k]);
    if hit {
      active' := ParseValue(line, ls[k]);
    }
  }

  /** The fgets loop of virtual_memory and the check after it. */
  method ScanMeminfo(file: string) returns (mem: MemInfo)
    requires LinesOk(Reads(file, 39))
    ensures mem == Summary(Reads(file, 39))
  {
    hide Reads, LastValue, LineOk;
    ghost var ls := Reads(file, 39);
    ghost var k := 0;
    var fp := new Stream(file);
    var line := new char[50](_ => '\0');
    var cached, active, inactive := UNSET, UNSET, UNSET;
    NothingRead(ls);
    var more := fp.NextLine(line, 39, ls, 0);
    while more
      invariant fp.LinesLeft(39, ls, k + 1) && k <= |ls| && fresh(fp) && fresh(line)
      invariant (more <==> k < |ls|) && (more ==> Str(line, 0, ls[k]))
      invariant Tracks(cached, LastValue(ls[..k], "Cached:")) && Tracks(active, LastValue(ls[..k], "Active:"))
      invariant Tracks(inactive, LastValue(ls[..k], "Inactive:"))
      decreases |ls| - k
    {
      assert LineOk(ls[k]);
      cached, active, inactive := ScanLine(line, cached, active, inactive, ls, k);
      k := k + 1;
      more := fp.NextLine(line, 39, ls, k);
    }
    assert ls[..k] == ls;
    LastValueSet(ls, "Cached:");
    LastValueSet(ls, "Active:");
    LastValueSet(ls, "Inactive:");
    if cached == UNSET || active == UNSET || inactive == UNSET {
      cached, active, inactive := 0, 0, 0;
    }
    mem := MemInfo(cached, active, inactive);
  }

  lemma NothingRead(ls: seq<string>)
    ensures LastValue(ls[..0], "Cached:") == None && LastValue(ls[..0], "Active:") == None
    ensures LastValue(ls[..0], "Inactive:") == None
  {
  }

  /** A line "<key>:   <n> kB" stands for n * 1024 bytes, modulo 2^64. */
  lemma MemLineRoundTrip(name: string, pad: string, n: nat)
    requires name != [] && Free(name, {':'}) && Only(pad, {' '}) && n < U64
    ensures LineOk(name + ":" + pad + Decimal(n) + " kB\n")
    ensures ValueOf(name + ":" + pad + Decimal(n) + " kB\n") == n * 1024 % U64
  {
    hide StrToUL, Head, Tail, Tokens, Decimal;
    var rest := pad + Decimal(n) + [' '] + "kB\n";
    assert name + ":" + pad + Decimal(n) + " kB\n" == "" + name + [':'] + rest;
    NextWord("", name, ':', rest, COLON);
    NextWord(pad, Decimal(n), ' ', "kB\n", SPACE);
    ReadBack(n);
  }

  // ----- what the file says

  /** A line of the file: a name with a number of kB, or anything else that starts with no key. */
  datatype MemLine = Field(name: string, pad: string, n: nat) | Other(text: string)

  ghost predicate ValidLine(l: MemLine) {
    match l
    case Field(name, pad, n) => name != [] && Free(name, {':'}) && Only(pad, {' '}) && n < U64
    case Other(text) => !IsKey(text)
  }

  function Printed(l: MemLine): string {
    match l
    case Field(name, pad, n) => name + ":" + pad + Decimal(n) + " kB\n"
    case Other(text) => text
  }

  /** The number on the last line of that name. */
  function LastNumber(es: seq<MemLine>, name: string): Option<nat> {
    if es == [] then None
    else if es[|es| - 1].Field? && es[|es| - 1].name == name then Some(es[|es| - 1].n)
    else LastNumber(es[..|es| - 1], name)
  }

  lemma StartsWithName(name: string, rest: string, key: string)
    requires Free(name, COLON) && Free(key, COLON)
    ensures key + ":" <= name + ":" + rest <==> name == key
  {
    var s := name + ":" + rest;
    assert s[|name|] == ':';
    if key + ":" <= s {
      assert s[|key|] == (key + ":")[|key|] == ':';
      assert forall i :: 0 <= i < |key| ==> s[i] == (key + ":")[i] == key[i];
      assert forall i :: 0 <= i < |name| ==> s[i] == name[i];
      assert |key| == |name|;
    }
  }

  lemma PrintedKey(l: MemLine, name: string)
    requires ValidLine(l) && name in {"Cached", "Active", "Inactive"}
    ensures name + ":" <= Printed(l) <==> l.Field? && l.name == name
    ensures LineOk(Printed(l)) && (l.Field? ==> ValueOf(Printed(l)) == l.n * 1024 % U64)
  {
    hide ValueOf, ValueWord, Decimal;
    match l
    case Field(other, pad, n) =>
      assert Printed(l) == other + ":" + (pad + Decimal(n) + " kB\n");
      StartsWithName(other, pad + Decimal(n) + " kB\n", name);
      MemLineRoundTrip(other, pad, n);
    case Other(text) =>
      assert "Cached" + ":" == "Cached:" && "Active" + ":" == "Active:" && "Inactive" + ":" == "Inactive:";
  }

  lemma {:induction false} LastValueIsLastNumber(es: seq<MemLine>, ls: seq<string>, name: string)
    requires |ls| == |es| && forall i :: 0 <= i < |es| ==> ValidLine(es[i]) && ls[i] == Printed(es[i])
    requires name in {"Cached", "Active", "Inactive"}
    ensures LastValue(ls, name + ":")
         == match LastNumber(es, name) case None => None case Some(n) => Some(n * 1024 % U64)
    decreases |es|
  {
    hide ValidLine, Printed, ValueOf;
    if es != [] {
      PrintedKey(es[|es| - 1], name);
      LastValueIsLastNumber(es[..|es| - 1], ls[..|ls| - 1], name);
    }
  }

  /** A file of lines that fit: the scan can read it, and reports 1024 times the last number of each of
      the three names, modulo 2^64, or three zeros when a name is missing. */
  lemma MeminfoRoundTrip(es: seq<MemLine>, ls: seq<string>)
    requires |ls| == |es| && forall i :: 0 <= i < |es| ==> ValidLine(es[i]) && ls[i] == Printed(es[i])
    requires forall i :: 0 <= i < |ls| ==> IsLine(ls[i]) && NoNul(ls[i]) && |ls[i]| <= 39
    ensures LinesOk(Reads(Flatten(ls), 39))
    ensures Summary(Reads(Flatten(ls), 39))
         == match (LastNumber(es, "Cached"), LastNumber(es, "Active"), LastNumber(es, "Inactive"))
            case (Some(c), Some(a), Some(i)) => MemInfo(c * 1024 % U64, a * 1024 % U64, i * 1024 % U64)
            case _ => MemInfo(0, 0, 0)
  {
    hide ValidLine, Printed, LineOk, LastValue, LastNumber, Reads;
    ReadsOfLines(ls, 39);
    forall i | 0 <= i < |ls| ensures LineOk(ls[i]) {
      PrintedKey(es[i], "Cached");
    }
    LastValueIsLastNumber(es, ls, "Cached");
    LastValueIsLastNumber(es, ls, "Active");
    LastValueIsLastNumber(es, ls, "Inactive");
    assert "Cached" + ":" == "Cached:" && "Active" + ":" == "Active:" && "Inactive" + ":" == "Inactive:";
  }
}
