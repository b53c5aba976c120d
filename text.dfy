/** Leading-whitespace removal: Python's `str.lstrip()` with no argument and
    `_skipSpace`, which applies it on request. */
module Text {

  /** The characters Python's `str.isspace` accepts, which are the ones
      `str.lstrip()` removes. */
  predicate IsSpace(c: char)
  {
    var k := c as int;
    (0x09 <= k <= 0x0D) || (0x1C <= k <= 0x20) || k == 0x85 || k == 0xA0 || k == 0x1680
    || (0x2000 <= k <= 0x200A) || k == 0x2028 || k == 0x2029 || k == 0x202F || k == 0x205F
    || k == 0x3000
  }

  predicate AllSpace(s: string)
  {
    forall i :: 0 <= i < |s| ==> IsSpace(s[i])
  }

  /** `t` is a suffix of `s`. */
  predicate IsSuffix(t: string, s: string)
  {
    |t| <= |s| && s[|s| - |t|..] == t
  }

  /** `s.lstrip()`. */
  function LStrip(s: string): string
  {
    if |s| > 0 && IsSpace(s[0]) then LStrip(s[1..]) else s
  }

  /** `s.lstrip()` is the suffix of `s` left after dropping every leading
      whitespace character, and no more. */
  lemma {:induction false} LStripSpec(s: string)
    ensures IsSuffix(LStrip(s), s)
    ensures AllSpace(s[..|s| - |LStrip(s)|])
    ensures LStrip(s) == [] || !IsSpace(LStrip(s)[0])
  {
    if |s| > 0 && IsSpace(s[0]) {
      LStripSpec(s[1..]);
      var r := LStrip(s[1..]);
      assert s[|s| - |r|..] == s[1..][|s| - 1 - |r|..];
      var p, q := s[..|s| - |r|], s[1..][..|s| - 1 - |r|];
      forall i | 1 <= i < |p| ensures IsSpace(p[i]) {
        assert p[i] == q[i - 1];
      }
    }
  }

  /** `_skipSpace(src, isSkip)`, i.e. `isSkip and src.lstrip() or src`. */
  function SkipSpace(src: string, skip: bool): string
  {
    if skip && LStrip(src) != "" then LStrip(src) else src
  }

  /** `_skipSpace` gives the stripped text when skipping is requested, except
      that a text made only of whitespace strips to the (false) empty string
      and so comes back unchanged; either way a suffix of its input. */
  lemma SkipSpaceSpec(src: string, skip: bool)
    ensures SkipSpace(src, skip) == src || SkipSpace(src, skip) == LStrip(src)
    ensures IsSuffix(SkipSpace(src, skip), src)
    ensures !skip ==> SkipSpace(src, skip) == src
    ensures skip && !AllSpace(src) ==>
      SkipSpace(src, skip) == LStrip(src) && SkipSpace(src, skip) != [] && !IsSpace(SkipSpace(src, skip)[0])
    ensures AllSpace(src) ==> SkipSpace(src, skip) == src
  {
    LStripEmptyIff(src);
    LStripSpec(src);
    assert src[|src| - |src|..] == src;
  }

  /** Stripping an all-whitespace text gives the empty string, and only
      then. */
  lemma {:induction false} LStripEmptyIff(s: string)
    ensures LStrip(s) == [] <==> AllSpace(s)
  {
    if |s| > 0 && IsSpace(s[0]) {
      LStripEmptyIff(s[1..]);
      assert forall i :: 1 <= i < |s| ==> s[i] == s[1..][i - 1];
    }
  }

  /** Stripping twice is stripping once. */
  lemma LStripIdempotent(s: string)
    ensures LStrip(LStrip(s)) == LStrip(s)
  {
  }
}
