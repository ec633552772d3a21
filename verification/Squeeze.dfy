/** squeeze: delete characters from a string in place. */
module Squeeze {
  import opened CText

  /** The characters of a string. */
  function CharSet(d: string): set<char> {
    set c | c in d
  }

  /** s without the characters of d. */
  function Without(s: string, d: string): string {
    if s == [] then []
    else if s[0] in d then Without(s[1..], d) else [s[0]] + Without(s[1..], d)
  }

  lemma {:induction false} WithoutMembers(s: string, d: string)
    ensures forall c :: c in Without(s, d) <==> c in s && c !in d
  {
    if s != [] {
      WithoutMembers(s[1..], d);
    }
  }

  /** What is left is every character that is not to be deleted, in order. */
  lemma {:induction false} WithoutIsFilter(s: string, d: string)
    ensures Without(s, d) == Filter(s, (c: char) => c !in d)
  {
    if s != [] {
      WithoutIsFilter(s[1..], d);
    }
  }

  lemma {:induction false} WithoutAll(s: string, d: string)
    requires forall c :: c in s ==> c in d
    ensures Without(s, d) == []
  {
    if s != [] {
      WithoutAll(s[1..], d);
    }
  }

  lemma {:induction false} WithoutSplit(a: string, b: string, d: string)
    ensures Without(a + b, d) == Without(a, d) + Without(b, d)
  {
    if a == [] {
      assert a + b == b;
    } else {
      assert (a + b)[0] == a[0] && (a + b)[1..] == a[1..] + b;
      WithoutSplit(a[1..], b, d);
    }
  }

  /** One pass per character composes to one deletion of them all. */
  lemma {:induction false} WithoutCompose(s: string, d: string, e: string)
    ensures Without(Without(s, d), e) == Without(s, d + e)
  {
    if s != [] {
      WithoutCompose(s[1..], d, e);
    }
  }

  /** Only the set of characters to delete matters, not their order or repetition. */
  lemma {:induction false} WithoutBySet(s: string, d: string, e: string)
    requires forall c :: c in d <==> c in e
    ensures Without(s, d) == Without(s, e)
  {
    if s != [] {
      WithoutBySet(s[1..], d, e);
    }
  }

  /** Deleting again deletes nothing more; a string without such characters is left alone. */
  lemma {:induction false} WithoutIdempotent(s: string, d: string)
    ensures Without(s, d) == s <==> Free(s, CharSet(d))
    ensures Without(Without(s, d), d) == Without(s, d)
  {
    WithoutCompose(s, d, d);
    WithoutBySet(s, d + d, d);
    WithoutWhole(s, d);
  }

  lemma {:induction false} WithoutShorter(s: string, d: string)
    ensures |Without(s, d)| <= |s|
  {
    if s != [] {
      WithoutShorter(s[1..], d);
    }
  }

  lemma {:induction false} WithoutWhole(s: string, d: string)
    ensures Without(s, d) == s <==> Free(s, CharSet(d))
  {
    if s != [] {
      WithoutWhole(s[1..], d);
      WithoutShorter(s[1..], d);
      if Free(s, CharSet(d)) {
        assert s[0] !in d;
        assert forall i :: 0 <= i < |s[1..]| ==> s[1..][i] == s[i + 1];
      } else if s[0] !in d {
        assert !Free(s[1..], CharSet(d)) by {
          var i :| 0 <= i < |s| && s[i] in d;
          assert s[1..][i - 1] == s[i];
        }
      }
    }
  }

  /** squeeze(buf + p, chars): one pass over the string for each character. Nothing outside the
      original string is written. */
  method SqueezeInPlace(buf: array<char>, p: nat, chars: string, ghost s: string)
    requires Str(buf, p, s) && NoNul(chars)
    modifies buf
    ensures Str(buf, p, Without(s, chars))
    ensures forall i :: 0 <= i < p || p + |s| <= i < buf.Length ==> buf[i] == old(buf[i])
  {
    var k := 0;
    assert chars[..0] == [];
    WithoutIdempotent(s, []);
    while k < |chars|
      invariant k <= |chars|
      invariant Str(buf, p, Without(s, chars[..k]))
      invariant forall i :: 0 <= i < p || p + |s| <= i < buf.Length ==> buf[i] == old(buf[i])
    {
      WithoutCompose(s, chars[..k], [chars[k]]);
      WithoutShorter(s, chars[..k]);
      assert chars[..k] + [chars[k]] == chars[..k + 1];
      DeleteOne(buf, p, chars[k], Without(s, chars[..k]));
      k := k + 1;
    }
    assert chars[..k] == chars;
  }

  /** One pass of the outer loop. */
  method DeleteOne(buf: array<char>, p: nat, ch: char, ghost s: string)
    requires Str(buf, p, s) && ch != '\0'
    modifies buf
    ensures Str(buf, p, Without(s, [ch]))
    ensures forall i :: 0 <= i < p || p + |s| <= i < buf.Length ==> buf[i] == old(buf[i])
  {
    ghost var kept := [];
    var src, target := p, p;
    assert s[..0] == [];
    while buf[src] != '\0'
      invariant p <= target <= src <= p + |s|
      invariant forall i :: 0 <= i < p || src <= i < buf.Length ==> buf[i] == old(buf[i])
      invariant kept == Without(s[..src - p], [ch]) && target == p + |kept|
      invariant forall i :: p <= i < target ==> buf[i] == kept[i - p]
      decreases p + |s| - src
    {
      assert buf[src] == s[src - p];
      WithoutStep(s, src - p, ch);
      if buf[src] != ch {
        kept := kept + [buf[src]];
        buf[target] := buf[src];
        target := target + 1;
      }
      src := src + 1;
    }
    assert s[..src - p] == s;
    WithoutNoNul(s, [ch]);
    buf[target] := '\0';
  }

  lemma WithoutNoNul(s: string, d: string)
    requires forall i :: 0 <= i < |s| ==> s[i] != '\0'
    ensures forall i :: 0 <= i < |Without(s, d)| ==> Without(s, d)[i] != '\0'
  {
    WithoutMembers(s, d);
    forall i | 0 <= i < |Without(s, d)| ensures Without(s, d)[i] != '\0' {
      assert Without(s, d)[i] in s;
    }
  }

  lemma WithoutStep(s: string, k: nat, ch: char)
    requires k < |s|
    ensures Without(s[..k + 1], [ch]) == Without(s[..k], [ch]) + if s[k] == ch then [] else [s[k]]
  {
    assert s[..k + 1] == s[..k] + [s[k]];
    WithoutSplit(s[..k], [s[k]], [ch]);
  }
}
