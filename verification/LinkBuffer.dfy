/** get_exe and get_terminal: reading a symbolic link into a buffer that doubles until it fits. */
module LinkBuffer {
  import opened CText
  import opened Numbers

  /** What the kernel has behind the link. */
  datatype Link = Target(text: string) | NoEntry(present: bool) | Unreadable

  /** readlink(link, buf, size): the first size characters at most, no NUL. */
  method Readlink(text: string, buf: array<char>, size: nat) returns (n: nat)
    requires size <= buf.Length
    modifies buf
    ensures n == if |text| <= size then |text| else size
    ensures forall i :: 0 <= i < n ==> buf[i] == text[i]
    ensures forall i :: n <= i < buf.Length ==> buf[i] == old(buf[i])
  {
    n := if |text| <= size then |text| else size;
    forall i | 0 <= i < n {
      buf[i] := text[i];
    }
  }

  /** The size the loop ends with, from bufsize on, for a link of length n. */
  function Grown(bufsize: nat, n: nat): (b: nat)
    requires bufsize >= 2
    ensures b >= bufsize && n < b - 1
    decreases n + 2 - bufsize
  {
    if n < bufsize - 1 then bufsize else Grown(2 * bufsize, n)
  }

  /** The final size is 1024 doubled some number of times, exceeds the link and its NUL, and is at
      most twice that when it grew at all. */
  lemma {:induction false} GrownBounds(bufsize: nat, n: nat) returns (k: nat)
    requires bufsize >= 2
    ensures Grown(bufsize, n) == bufsize * Pow2(k)
    ensures Grown(bufsize, n) > n + 1
    ensures k > 0 ==> Grown(bufsize, n) <= 2 * (n + 1)
    decreases n + 2 - bufsize
  {
    if n < bufsize - 1 {
      k := 0;
    } else {
      var j := GrownBounds(2 * bufsize, n);
      k := j + 1;
      if j == 0 {
        assert Grown(bufsize, n) == 2 * bufsize;
      }
      assert bufsize * Pow2(k) == 2 * bufsize * Pow2(j);
    }
  }

  /** realloc(tmp, size): the old contents, then anything. */
  method Realloc(tmp: array<char>, size: nat) returns (buf: array<char>)
    requires tmp.Length <= size
    ensures fresh(buf) && buf.Length == size
    ensures forall i :: 0 <= i < tmp.Length ==> buf[i] == tmp[i]
  {
    buf := new char[size](_ => '?');
    forall i | 0 <= i < tmp.Length {
      buf[i] := tmp[i];
    }
  }

  /** The growth loop. The size is a 32-bit unsigned int, which the doubling must not overflow. */
  method ReadAll(text: string, first: array<char>, got: nat) returns (tmp: array<char>, bufsize: nat)
    requires first.Length == 1024 && NoNul(text) && |text| < 0x7FFF_FFFF
    requires got == (if |text| <= 1023 then |text| else 1023)
    requires forall i :: 0 <= i < got ==> first[i] == text[i]
    modifies first
    ensures bufsize == tmp.Length == Grown(1024, |text|)
    ensures Str(tmp, 0, text)
  {
    tmp, bufsize := first, 1024;
    var ret := got;
    while ret == bufsize - 1
      invariant tmp.Length == bufsize && 1024 <= bufsize < U32 && (tmp == first || fresh(tmp))
      invariant Grown(bufsize, |text|) == Grown(1024, |text|)
      invariant ret == (if |text| <= bufsize - 1 then |text| else bufsize - 1)
      invariant forall i :: 0 <= i < ret ==> tmp[i] == text[i]
      decreases |text| + 2 - bufsize
    {
      assert 2 * bufsize < U32;
      bufsize := bufsize * 2 % U32;
      tmp := Realloc(tmp, bufsize);
      ret := Readlink(text, tmp, bufsize - 1);
    }
    tmp[ret] := '\0';
  }

  /** get_terminal: NULL when the link cannot be read. */
  method GetTerminal(link: Link) returns (ret: Option<array<char>>)
    requires link.Target? ==> NoNul(link.text) && |link.text| < 0x7FFF_FFFF
    ensures ret.Some? <==> link.Target?
    ensures ret.Some? ==> Str(ret.value, 0, link.text) && ret.value.Length == Grown(1024, |link.text|)
  {
    var tmp := new char[1024](_ => '\0');
    if !link.Target? {
      return None;
    }
    var got := Readlink(link.text, tmp, 1023);
    var buf, bufsize := ReadAll(link.text, tmp, got);
    ret := Some(buf);
  }

  /** get_exe: a process without executable (the link is missing although its directory entry can
      be examined) has the empty name. */
  method GetExe(link: Link) returns (ret: Option<array<char>>)
    requires link.Target? ==> NoNul(link.text) && |link.text| < 0x7FFF_FFFF
    ensures ret.Some? <==> link.Target? || (link.NoEntry? && link.present)
    ensures link.Target? ==> Str(ret.value, 0, link.text) && ret.value.Length == Grown(1024, |link.text|)
    ensures link.NoEntry? && link.present ==> Str(ret.value, 0, "")
  {
    var tmp := new char[1024](_ => '\0');
    match link
    case NoEntry(found) =>
      if found {
        tmp[0] := '\0';
        return Some(tmp);
      }
      return None;
    case Unreadable =>
      return None;
    case Target(text) =>
      var got := Readlink(text, tmp, 1023);
      var buf, bufsize := ReadAll(text, tmp, got);
      ret := Some(buf);
  }

  // ----- where 32-bit doubling stops working

  /** The buffer size after k doublings of a 32-bit unsigned int. */
  function SizeAt(k: nat): nat {
    if k == 0 then 1024 else SizeAt(k - 1) * 2 % U32
  }

  lemma {:induction false} PowUpTo21(k: nat)
    requires k <= 21
    ensures 1 <= Pow2(k) <= 0x20_0000
    ensures k == 21 ==> Pow2(k) == 0x20_0000
    decreases 21 - k
  {
    if k == 21 {
      assert Pow2(5) == 32;
      assert Pow2(10) == 1024;
      assert Pow2(15) == 0x8000;
      assert Pow2(20) == 0x10_0000;
    } else {
      PowUpTo21(k + 1);
    }
  }

  lemma {:induction false} SizeAtIs(k: nat)
    requires k <= 21
    ensures SizeAt(k) == 1024 * Pow2(k) && SizeAt(k) <= 0x8000_0000
  {
    PowUpTo21(k);
    if k > 0 {
      SizeAtIs(k - 1);
    }
  }

  /** Some size the unsigned int can take is large enough if and only if the link is shorter than
      2^31 - 1 characters. */
  lemma GrowthFitsExactly(n: nat)
    ensures (exists k: nat :: k <= 21 && n < SizeAt(k) - 1) <==> n < 0x7FFF_FFFF
  {
    hide SizeAt;
    SizeAtIs(21);
    PowUpTo21(21);
    forall k: nat | k <= 21 ensures SizeAt(k) <= 0x8000_0000 {
      SizeAtIs(k);
    }
    if n < 0x7FFF_FFFF {
      assert n < SizeAt(21) - 1;
    }
  }

  lemma NextSize(k: nat)
    ensures SizeAt(k + 1) == SizeAt(k) * 2 % U32
  {
  }

  /** The doubling after that gives 0. */
  lemma GrowthWraps()
    ensures SizeAt(22) == 0
  {
    hide SizeAt, Pow2;
    SizeAtIs(21);
    PowUpTo21(21);
    NextSize(21);
  }
}
