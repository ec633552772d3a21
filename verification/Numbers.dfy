/** Decimal text and the 64-bit reading strtoul and strtoull give it. */
module Numbers {
  const U32: nat := 0x1_0000_0000
  const U64: nat := 0x1_0000_0000_0000_0000

  function Pow2(k: nat): nat {
    if k == 0 then 1 else 2 * Pow2(k - 1)
  }

  predicate IsDigit(c: char) {
    '0' <= c <= '9'
  }

  /** isspace of the "C" locale. */
  predicate IsSpace(c: char) {
    c == ' ' || '\t' <= c <= '\r'
  }

  /** The value of the leading digits of s, continuing from acc. */
  function DigitsFrom(s: string, acc: nat): nat {
    if s == [] || !IsDigit(s[0]) then acc else DigitsFrom(s[1..], 10 * acc + (s[0] - '0') as int)
  }

  /** A magnitude as unsigned long: ULONG_MAX when it does not fit, else negated modulo 2^64 after a
      minus sign. */
  function ToUL(v: nat, negative: bool): (r: nat)
    ensures r < U64
  {
    if v >= U64 then U64 - 1 else if negative && v > 0 then U64 - v else v
  }

  /** strtoul(s, NULL, 10): leading blanks, one optional sign, the digits that follow; anything after
      them is ignored. */
  function StrToUL(s: string): (v: nat)
    ensures v < U64
  {
    if s == [] then 0
    else if IsSpace(s[0]) then StrToUL(s[1..])
    else if s[0] == '-' then ToUL(DigitsFrom(s[1..], 0), true)
    else if s[0] == '+' then ToUL(DigitsFrom(s[1..], 0), false)
    else ToUL(DigitsFrom(s, 0), false)
  }

  /** The readings of several words. */
  function ToNumbers(ws: seq<string>): (ns: seq<int>)
    ensures |ns| == |ws|
  {
    if ws == [] then [] else ToNumbers(ws[..|ws| - 1]) + [StrToUL(ws[|ws| - 1])]
  }

  lemma {:induction false} ToNumbersAt(ws: seq<string>, i: nat)
    requires i < |ws|
    ensures ToNumbers(ws)[i] == StrToUL(ws[i])
    decreases |ws|
  {
    if i < |ws| - 1 {
      ToNumbersAt(ws[..|ws| - 1], i);
    }
  }

  /** "%lu". */
  function Decimal(n: nat): (s: string)
    ensures s != []
    ensures forall i :: 0 <= i < |s| ==> IsDigit(s[i])
  {
    if n < 10 then ['0' + n as char] else Decimal(n / 10) + ['0' + (n % 10) as char]
  }

  lemma {:induction false} DigitsThrough(a: string, b: string, acc: nat)
    requires forall i :: 0 <= i < |a| ==> IsDigit(a[i])
    ensures DigitsFrom(a + b, acc) == DigitsFrom(b, DigitsFrom(a, acc))
  {
    if a == [] {
      assert a + b == b;
    } else {
      assert (a + b)[0] == a[0] && (a + b)[1..] == a[1..] + b;
      DigitsThrough(a[1..], b, 10 * acc + (a[0] - '0') as int);
    }
  }

  lemma {:induction false} DecimalValue(n: nat)
    ensures DigitsFrom(Decimal(n), 0) == n
  {
    if n >= 10 {
      DecimalValue(n / 10);
      DigitsThrough(Decimal(n / 10), ['0' + (n % 10) as char], 0);
    }
  }

  /** Printing a 64-bit counter and reading it back gives the counter, whatever non-digit text
      follows it. */
  lemma DecimalRoundTrip(n: nat, after: string)
    requires n < U64
    requires after != [] ==> !IsDigit(after[0])
    ensures StrToUL(Decimal(n) + after) == n
  {
    var s := Decimal(n) + after;
    assert s[0] == Decimal(n)[0] && IsDigit(s[0]);
    DecimalValue(n);
    DigitsThrough(Decimal(n), after, 0);
  }

  /** A number too large for 64 bits reads as the largest one. */
  lemma OverflowSaturates(n: nat, after: string)
    requires n >= 0x1_0000_0000_0000_0000
    requires after != [] ==> !IsDigit(after[0])
    ensures StrToUL(Decimal(n) + after) == 0xFFFF_FFFF_FFFF_FFFF
  {
    var s := Decimal(n) + after;
    assert s[0] == Decimal(n)[0] && IsDigit(s[0]);
    DecimalValue(n);
    DigitsThrough(Decimal(n), after, 0);
  }

  /** Base ten, most significant digit first. */
  lemma BaseTen()
    ensures Decimal(1207) == "1207" && StrToUL(" \t1207 kB") == 1207 && StrToUL("-1") == 0xFFFF_FFFF_FFFF_FFFF
  {
    assert Decimal(12) == "12";
    assert Decimal(120) == "120";
    assert "1207 kB" == "1207" + " kB";
    DecimalRoundTrip(1207, " kB");
    assert " \t1207 kB"[1..][1..] == "1207 kB";
    assert DigitsFrom("1", 0) == 1;
    assert "-1"[1..] == "1";
  }
}
