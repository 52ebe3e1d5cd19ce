/** The handful of Python string operations the script relies on, with the
    semantics of Python 2 `str`: slicing with clamped bounds, `[::-1]`,
    `upper()`, `strip(c)` for a single character, and `split(sep)[0]`.
    A Python 2 `str` is a byte string; here one `char` stands for one byte. */
module PyStrings {

  /** `s[lo:hi]` for non-negative bounds: bounds past the end are clamped and
      an empty or inverted range gives the empty string, never an error. */
  function Slice(s: string, lo: nat, hi: nat): (r: string)
    ensures |r| <= |s|
    ensures lo <= hi <= |s| ==> r == s[lo..hi]
    ensures lo <= |s| <= hi ==> r == s[lo..]
    ensures |s| <= lo || hi <= lo ==> r == []
  {
    var end := if hi < |s| then hi else |s|;
    if lo < end then s[lo..end] else []
  }

  /** `s[::-1]`. */
  function Reverse(s: string): (r: string)
    ensures |r| == |s|
    ensures forall i :: 0 <= i < |s| ==> r[i] == s[|s| - 1 - i]
  {
    if s == [] then [] else [s[|s| - 1]] + Reverse(s[..|s| - 1])
  }

  /** Python 2 `str.upper()` on one character: only ASCII letters change. */
  function UpperChar(c: char): (r: char)
    ensures !('a' <= r <= 'z')
    ensures !('a' <= c <= 'z') ==> r == c
    ensures 'a' <= c <= 'z' ==> r as int == c as int - 32
  {
    if 'a' <= c <= 'z' then (c as int - 32) as char else c
  }

  function Upper(s: string): (r: string)
    ensures |r| == |s|
    ensures forall i :: 0 <= i < |s| ==> r[i] == UpperChar(s[i])
  {
    if s == [] then [] else Upper(s[..|s| - 1]) + [UpperChar(s[|s| - 1])]
  }

  /** `s.lstrip(c)`: drops every leading occurrence of `c`. */
  function TrimStart(s: string, c: char): string {
    if |s| > 0 && s[0] == c then TrimStart(s[1..], c) else s
  }

  /** `s.rstrip(c)`: drops every trailing occurrence of `c`. */
  function TrimEnd(s: string, c: char): string {
    if |s| > 0 && s[|s| - 1] == c then TrimEnd(s[..|s| - 1], c) else s
  }

  /** `s.strip(c)`: drops every leading and every trailing occurrence of `c`. */
  function Strip(s: string, c: char): string {
    TrimEnd(TrimStart(s, c), c)
  }

  lemma {:induction false} TrimStartShape(s: string, c: char)
    ensures var r := TrimStart(s, c);
      |r| <= |s| && r == s[|s| - |r|..] &&
      (forall i :: 0 <= i < |s| - |r| ==> s[i] == c) &&
      (|r| > 0 ==> r[0] != c)
  {
    if |s| > 0 && s[0] == c {
      TrimStartShape(s[1..], c);
    }
  }

  lemma {:induction false} TrimEndShape(s: string, c: char)
    ensures var r := TrimEnd(s, c);
      |r| <= |s| && r == s[..|r|] &&
      (forall i :: |r| <= i < |s| ==> s[i] == c) &&
      (|r| > 0 ==> r[|r| - 1] != c)
  {
    if |s| > 0 && s[|s| - 1] == c {
      TrimEndShape(s[..|s| - 1], c);
    }
  }

  /** The stripped string is a piece of `s` cut out from between two runs of
      `c`, and neither starts nor ends with `c`; a string without `c` is
      left alone. */
  lemma StripShape(s: string, c: char)
    ensures var r := Strip(s, c);
      exists lo {:trigger s[lo..]} :: 0 <= lo <= |s| - |r| && r == s[lo..][..|r|] &&
        (forall i :: 0 <= i < lo ==> s[i] == c) &&
        (forall i :: lo + |r| <= i < |s| ==> s[i] == c)
    ensures |Strip(s, c)| > 0 ==> Strip(s, c)[0] != c && Strip(s, c)[|Strip(s, c)| - 1] != c
    ensures c !in s ==> Strip(s, c) == s
  {
    var t := TrimStart(s, c);
    TrimStartShape(s, c);
    TrimEndShape(t, c);
    var lo := |s| - |t|;
    var r := Strip(s, c);
    assert r == s[lo..][..|r|];
    forall i | lo + |r| <= i < |s|
      ensures s[i] == c
    {
      assert s[i] == t[i - lo];
    }
  }

  /** `s.split(sep)[0]`: everything before the first `sep`, or all of `s`. */
  function FirstField(s: string, sep: char): (r: string)
    ensures |r| <= |s| && r == s[..|r|]
    ensures sep !in r
    ensures |r| < |s| ==> s[|r|] == sep
  {
    if s == [] || s[0] == sep then [] else [s[0]] + FirstField(s[1..], sep)
  }

  /** `''.join(ss)`. */
  function Concat(ss: seq<string>): (r: string)
    ensures |ss| == 0 ==> r == []
  {
    if ss == [] then [] else ss[0] + Concat(ss[1..])
  }
}
