/**
 * The few string operations of Python's `str` that the tool relies on,
 * over `seq<char>`. Case mapping is ASCII-only: `lower()` maps 'A'..'Z'
 * to 'a'..'z' and leaves every other character alone.
 */
module Text {

  predicate IsUpper(c: char) { 'A' <= c <= 'Z' }

  function LowerChar(c: char): char {
    if IsUpper(c) then (c as int + 32) as char else c
  }

  /** `s.lower()` restricted to ASCII letters. */
  function Lower(s: string): (r: string)
    ensures |r| == |s|
  {
    seq(|s|, i requires 0 <= i < |s| => LowerChar(s[i]))
  }

  /** A string with no upper-case ASCII letter is its own lower-case form. */
  lemma LowerOfLower(s: string)
    requires forall i :: 0 <= i < |s| ==> !IsUpper(s[i])
    ensures Lower(s) == s
  {
  }

  /** `t` occurs in `s` starting at position `i`. */
  predicate OccursAt(s: string, t: string, i: nat) {
    i + |t| <= |s| && s[i..i + |t|] == t
  }

  /** `t in s` for strings: `t` occurs as a contiguous piece of `s`. */
  predicate Contains(s: string, t: string) {
    exists i: nat | i <= |s| :: OccursAt(s, t, i)
  }

  /** A non-empty pattern whose first character never occurs in `s` is not in `s`. */
  lemma NotContainsFirstChar(s: string, t: string)
    requires |t| > 0 && forall i :: 0 <= i < |s| ==> s[i] != t[0]
    ensures !Contains(s, t)
  {
    forall i: nat | i <= |s| ensures !OccursAt(s, t, i) {
      if i + |t| <= |s| {
        assert s[i..i + |t|][0] == s[i];
      }
    }
  }

  /** `s.startswith(p)` */
  predicate StartsWith(s: string, p: string) {
    |p| <= |s| && s[..|p|] == p
  }

  /** `s.endswith(suffix)` */
  predicate EndsWith(s: string, suffix: string) {
    |suffix| <= |s| && s[|s| - |suffix|..] == suffix
  }

  /** `s.split(c)[0]`: everything before the first `c`, or all of `s`. */
  function BeforeFirst(s: string, c: char): (r: string)
    ensures r <= s
    ensures c !in r
    ensures |r| < |s| ==> s[|r|] == c
  {
    if s == [] || s[0] == c then [] else [s[0]] + BeforeFirst(s[1..], c)
  }

  /** Every character of `p` is `c`. */
  predicate AllAre(p: string, c: char) {
    forall k :: 0 <= k < |p| ==> p[k] == c
  }

  /** `r` is `s` with a run of `c` removed from the front and another from the back. */
  ghost predicate TrimmedOf(s: string, r: string, c: char) {
    exists p, q :: s == p + r + q && AllAre(p, c) && AllAre(q, c)
  }

  lemma TrimmedFront(s: string, r: string, c: char)
    requires |s| > 0 && s[0] == c && TrimmedOf(s[1..], r, c)
    ensures TrimmedOf(s, r, c)
  {
    var p, q :| s[1..] == p + r + q && AllAre(p, c) && AllAre(q, c);
    assert s == ([c] + p) + r + q;
    assert AllAre([c] + p, c);
  }

  lemma TrimmedBack(s: string, r: string, c: char)
    requires |s| > 0 && s[|s| - 1] == c && TrimmedOf(s[..|s| - 1], r, c)
    ensures TrimmedOf(s, r, c)
  {
    var p, q :| s[..|s| - 1] == p + r + q && AllAre(p, c) && AllAre(q, c);
    assert s == p + r + (q + [c]);
    assert AllAre(q + [c], c);
  }

  lemma TrimmedNothing(s: string, c: char)
    ensures TrimmedOf(s, s, c)
  {
    var none: string := [];
    assert s == none + s + none && AllAre(none, c);
  }

  /**
   * `s.strip(c)` for a single character: `s` without the runs of `c` at both
   * ends, and nothing else removed.
   */
  function Strip(s: string, c: char): (r: string)
    ensures |r| == 0 || (r[0] != c && r[|r| - 1] != c)
    ensures TrimmedOf(s, r, c)
    decreases |s|
  {
    if s == [] then TrimmedNothing(s, c); []
    else if s[0] == c then var r := Strip(s[1..], c); TrimmedFront(s, r, c); r
    else if s[|s| - 1] == c then var r := Strip(s[..|s| - 1], c); TrimmedBack(s, r, c); r
    else TrimmedNothing(s, c); s
  }
}
