/** strcat and strlcat on character buffers. */
module CBuffer {
  import opened CText

  /** strcat(dst, src + p), for strings in different buffers. */
  method StrCat(dst: array<char>, src: array<char>, p: nat, ghost t: string, ghost s: string)
    requires Str(dst, 0, t) && Str(src, p, s) && dst != src
    requires |t| + |s| < dst.Length
    modifies dst
    ensures Str(dst, 0, t + s)
  {
    var end := 0;
    while dst[end] != '\0'
      invariant end <= |t|
      decreases |t| - end
    {
      end := end + 1;
    }
    assert end == |t|;
    var i := 0;
    while src[p + i] != '\0'
      invariant i <= |s| && Str(src, p, s)
      invariant forall j :: 0 <= j < |t| ==> dst[j] == t[j]
      invariant forall j :: |t| <= j < |t| + i ==> dst[j] == s[j - |t|]
      decreases |s| - i
    {
      assert src[p + i] == s[p + i - p];
      dst[end + i] := src[p + i];
      i := i + 1;
    }
    assert i == |s|;
    dst[end + i] := '\0';
  }

  /** What fits of t + s in a buffer of the given size. */
  function Capped(t: string, s: string, size: nat): string {
    if |t| + |s| < size then t + s else if size == 0 then [] else (t + s)[..size - 1]
  }

  /** strlcat(dst, s, sizeof(dst)). */
  method StrLCat(dst: array<char>, s: string, ghost t: string)
    requires Str(dst, 0, t) && NoNul(s)
    modifies dst
    ensures Str(dst, 0, Capped(t, s, dst.Length))
  {
    var end := 0;
    while dst[end] != '\0'
      invariant end <= |t|
      decreases |t| - end
    {
      end := end + 1;
    }
    assert end == |t|;
    var i := 0;
    while i < |s| && end + i < dst.Length - 1
      invariant i <= |s| && end + i <= dst.Length - 1
      invariant forall j :: 0 <= j < |t| ==> dst[j] == t[j]
      invariant forall j :: |t| <= j < |t| + i ==> dst[j] == s[j - |t|]
    {
      dst[end + i] := s[i];
      i := i + 1;
    }
    dst[end + i] := '\0';
    assert (t + s)[..end + i] == Capped(t, s, dst.Length);
  }
}
