/** String views and the prefix test used throughout the module. */
module StrView {

  /** `s.substr(pos, n)` of a string view: the substring starting at `pos`,
      clamped to the end of `s`. */
  function Substr(s: string, pos: nat, n: nat): (r: string)
    requires pos <= |s|
    ensures |r| <= n && |r| <= |s| - pos
    ensures |r| == if pos + n <= |s| then n else |s| - pos
    ensures r == s[pos..pos + |r|]
  {
    if pos + n <= |s| then s[pos..pos + n] else s[pos..]
  }

  /** `startsWith(str, prefix)`: compares the first `|prefix|` characters of
      `str` (fewer if `str` is shorter) with `prefix`. */
  function StartsWith(str: string, prefix: string): (r: bool)
    ensures r <==> |prefix| <= |str| && str[..|prefix|] == prefix
  {
    Substr(str, 0, |prefix|) == prefix
  }

  /** Every string starts with the empty string. */
  lemma StartsWithEmpty(s: string)
    ensures StartsWith(s, "")
  {
  }

  /** A prefix longer than the string never matches. */
  lemma StartsWithTooLong(s: string, p: string)
    requires |p| > |s|
    ensures !StartsWith(s, p)
  {
  }

  /** `p` is a prefix of `p + t` for every `t`, in particular of `p` itself. */
  lemma StartsWithConcat(p: string, t: string)
    ensures StartsWith(p + t, p)
    ensures StartsWith(p, p)
  {
    assert (p + t)[..|p|] == p;
    assert p[..|p|] == p;
  }
}
