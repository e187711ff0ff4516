/**
 * The few Python `str` operations the code finder relies on, over `string`
 * (a sequence of Unicode scalar values): `strip()`, `strip(chars)`,
 * `split(sep)[0]`, `lower()` (on the ASCII letters) and `endswith`.
 */
module PyStrings {

  /** The characters for which Python's `str.isspace()` holds; `str.strip()` with no argument removes these. */
  const Whitespace: set<char> :=
    {'\t', '\n', '\U{B}', '\U{C}', '\r', '\U{1C}', '\U{1D}', '\U{1E}', '\U{1F}', ' ',
     '\U{85}', '\U{A0}', '\U{1680}',
     '\U{2000}', '\U{2001}', '\U{2002}', '\U{2003}', '\U{2004}', '\U{2005}',
     '\U{2006}', '\U{2007}', '\U{2008}', '\U{2009}', '\U{200A}',
     '\U{2028}', '\U{2029}', '\U{202F}', '\U{205F}', '\U{3000}'}

  /** Every character of `s` is one of `cs`. */
  predicate AllIn(s: string, cs: set<char>) {
    forall k :: 0 <= k < |s| ==> s[k] in cs
  }

  /** Neither the first nor the last character of `s` is one of `cs`. */
  predicate NoEdgeIn(s: string, cs: set<char>) {
    s == [] || (s[0] !in cs && s[|s| - 1] !in cs)
  }

  /** `s` is `t` with runs of characters from `cs` added in front and behind. */
  ghost predicate PaddedBy(s: string, t: string, cs: set<char>) {
    exists i :: 0 <= i <= |s| - |t| && s[i..i + |t|] == t && AllIn(s[..i], cs) && AllIn(s[i + |t|..], cs)
  }

  /** How many characters of `cs` start `s`: what `s.lstrip(cs)` removes. */
  function LeadingRun(s: string, cs: set<char>): (n: nat)
    ensures n <= |s| && AllIn(s[..n], cs)
    ensures n < |s| ==> s[n] !in cs
  {
    if s != [] && s[0] in cs then
      var m := LeadingRun(s[1..], cs);
      assert s[..1 + m] == [s[0]] + s[1..][..m];
      1 + m
    else 0
  }

  /** How many characters of `cs` end `s`: what `s.rstrip(cs)` removes. */
  function TrailingRun(s: string, cs: set<char>): (n: nat)
    ensures n <= |s| && AllIn(s[|s| - n..], cs)
    ensures n < |s| ==> s[|s| - 1 - n] !in cs
  {
    if s != [] && s[|s| - 1] in cs then
      var init := s[..|s| - 1];
      var m := TrailingRun(init, cs);
      assert s[|s| - (1 + m)..] == init[|init| - m..] + [s[|s| - 1]];
      1 + m
    else 0
  }

  /** `s.strip(cs)`: `s` with every leading and trailing character of `cs` removed. */
  function StripChars(s: string, cs: set<char>): (r: string)
    ensures NoEdgeIn(r, cs)
    ensures |r| <= |s|
  {
    var t := s[LeadingRun(s, cs)..];
    t[..|t| - TrailingRun(t, cs)]
  }

  /** `s.strip()`: `s` without leading and trailing whitespace. */
  function Strip(s: string): (r: string)
    ensures NoEdgeIn(r, Whitespace)
  {
    StripChars(s, Whitespace)
  }

  /** What `strip` removes is a run of `cs` in front and a run of `cs` behind: the result is a middle part of `s`. */
  lemma StripCharsIsPadded(s: string, cs: set<char>)
    ensures PaddedBy(s, StripChars(s, cs), cs)
  {
    var i := LeadingRun(s, cs);
    var t := s[i..];
    var j := TrailingRun(t, cs);
    var r := StripChars(s, cs);
    assert r == t[..|t| - j];
    assert s[i..i + |r|] == r;
    assert s[i + |r|..] == t[|t| - j..];
    assert AllIn(s[..i], cs) && AllIn(s[i + |r|..], cs);
  }

  /** `lstrip` removes exactly a leading run of `cs`. */
  lemma {:induction false} LeadingRunOfPadded(front: string, rest: string, cs: set<char>)
    requires AllIn(front, cs)
    requires rest == [] || rest[0] !in cs
    ensures LeadingRun(front + rest, cs) == |front|
  {
    if front == [] {
      assert front + rest == rest;
    } else {
      var s := front + rest;
      assert s[0] == front[0];
      assert s[1..] == front[1..] + rest;
      LeadingRunOfPadded(front[1..], rest, cs);
    }
  }

  /** `rstrip` removes exactly a trailing run of `cs`. */
  lemma {:induction false} TrailingRunOfPadded(rest: string, back: string, cs: set<char>)
    requires AllIn(back, cs)
    requires rest == [] || rest[|rest| - 1] !in cs
    ensures TrailingRun(rest + back, cs) == |back|
  {
    if back == [] {
      assert rest + back == rest;
    } else {
      var s := rest + back;
      var n := |back| - 1;
      assert s[|s| - 1] == back[n];
      assert s[..|s| - 1] == rest + back[..n];
      TrailingRunOfPadded(rest, back[..n], cs);
    }
  }

  /** Stripping is the inverse of padding: whatever runs of `cs` surround a `t` with no `cs` at its edges, stripping gives back `t`. */
  lemma StripCharsOfPadded(front: string, t: string, back: string, cs: set<char>)
    requires AllIn(front, cs) && AllIn(back, cs) && NoEdgeIn(t, cs)
    ensures StripChars(front + t + back, cs) == t
  {
    var s := front + t + back;
    if t == [] {
      assert AllIn(s, cs) by {
        forall k | 0 <= k < |s| ensures s[k] in cs {
          if k < |front| { assert s[k] == front[k]; } else { assert s[k] == back[k - |front|]; }
        }
      }
      assert s + [] == s;
      LeadingRunOfPadded(s, [], cs);
    } else {
      assert s == front + (t + back);
      LeadingRunOfPadded(front, t + back, cs);
      assert s[|front|..] == t + back;
      TrailingRunOfPadded(t, back, cs);
      assert (t + back)[..|t|] == t;
    }
  }

  /** Stripping twice is stripping once. */
  lemma StripCharsIdempotent(s: string, cs: set<char>)
    ensures StripChars(StripChars(s, cs), cs) == StripChars(s, cs)
  {
    var r := StripChars(s, cs);
    assert [] + r + [] == r;
    StripCharsOfPadded([], r, [], cs);
  }

  /** `s.split(sep)[0]`: the part of `s` before the first `sep`, or all of `s` when there is none. */
  function BeforeFirst(s: string, sep: char): (r: string)
    ensures sep !in r
    ensures |r| <= |s| && r == s[..|r|]
    ensures |r| < |s| ==> s[|r|] == sep
  {
    if s == [] || s[0] == sep then [] else [s[0]] + BeforeFirst(s[1..], sep)
  }

  /** Python's `str.lower()` on one character, for the ASCII letters. */
  function LowerChar(c: char): char {
    if 'A' <= c <= 'Z' then (c as int - 'A' as int + 'a' as int) as char else c
  }

  /** Python's `str.lower()`, on the ASCII letters. */
  function Lower(s: string): (r: string)
    ensures |r| == |s|
  {
    if s == [] then [] else [LowerChar(s[0])] + Lower(s[1..])
  }

  /** `lower()` works character by character. */
  lemma {:induction false} LowerAt(s: string, k: nat)
    requires k < |s|
    ensures Lower(s)[k] == LowerChar(s[k])
  {
    if k > 0 {
      LowerAt(s[1..], k - 1);
    }
  }

  /** `s.endswith(suffix)`. */
  predicate EndsWith(s: string, suffix: string) {
    |suffix| <= |s| && s[|s| - |suffix|..] == suffix
  }
}
