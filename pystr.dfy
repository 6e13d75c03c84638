/**
 * The handful of Python string built-ins the extractors rely on, written out
 * over `string` (a `seq<char>`): `str.strip()`, `str.split('\n')`, the `in`
 * substring test, `str.lower()` restricted to ASCII, `str.endswith` and the
 * `\d` digit class.
 */
module PyStr {

  /** `str.isspace()` for one character: the characters Python strips by default. */
  predicate IsSpace(c: char) {
    || ('\t' <= c <= '\r')
    || ('\U{1C}' <= c <= ' ')
    || c == '\U{85}' || c == '\U{A0}' || c == '\U{1680}'
    || ('\U{2000}' <= c <= '\U{200A}')
    || c == '\U{2028}' || c == '\U{2029}' || c == '\U{202F}' || c == '\U{205F}' || c == '\U{3000}'
  }

  /** An ASCII decimal digit, the characters `\d` is taken to match. */
  predicate IsDigit(c: char) {
    '0' <= c <= '9'
  }

  /** Length of the longest prefix of `s` whose characters all satisfy `p`. */
  function LeadingRun(s: string, p: char -> bool): (k: nat)
    ensures k <= |s|
    ensures forall i :: 0 <= i < k ==> p(s[i])
    ensures k < |s| ==> !p(s[k])
  {
    if |s| > 0 && p(s[0]) then 1 + LeadingRun(s[1..], p) else 0
  }

  /** Number of whitespace characters at the end of `s`. */
  function TrailingSpaces(s: string): (k: nat)
    ensures k <= |s|
    ensures forall i :: |s| - k <= i < |s| ==> IsSpace(s[i])
    ensures k < |s| ==> !IsSpace(s[|s| - 1 - k])
  {
    if |s| > 0 && IsSpace(s[|s| - 1]) then 1 + TrailingSpaces(s[..|s| - 1]) else 0
  }

  /** `s.lstrip()`: drop whitespace from the front. */
  function StripLeading(s: string): string {
    if |s| > 0 && IsSpace(s[0]) then StripLeading(s[1..]) else s
  }

  /** `s.rstrip()`: drop whitespace from the back. */
  function StripTrailing(s: string): string {
    if |s| > 0 && IsSpace(s[|s| - 1]) then StripTrailing(s[..|s| - 1]) else s
  }

  /** `s.strip()`: `s` without its leading and trailing whitespace. */
  function Strip(s: string): string {
    StripTrailing(StripLeading(s))
  }

  lemma {:induction false} StripLeadingSlice(s: string)
    ensures StripLeading(s) == s[LeadingRun(s, IsSpace)..]
  {
    if |s| > 0 && IsSpace(s[0]) {
      StripLeadingSlice(s[1..]);
      assert s[1..][LeadingRun(s[1..], IsSpace)..] == s[1 + LeadingRun(s[1..], IsSpace)..];
    }
  }

  lemma {:induction false} StripTrailingSlice(s: string)
    ensures StripTrailing(s) == s[..|s| - TrailingSpaces(s)]
  {
    if |s| > 0 && IsSpace(s[|s| - 1]) {
      StripTrailingSlice(s[..|s| - 1]);
      assert s[..|s| - 1][..|s| - 1 - TrailingSpaces(s[..|s| - 1])] == s[..|s| - 1 - TrailingSpaces(s[..|s| - 1])];
    }
  }

  /** The stripped string is `s` less its leading run and then the trailing run of what is left. */
  lemma StripSlice(s: string)
    ensures var a := LeadingRun(s, IsSpace);
            Strip(s) == s[a..][..|s| - a - TrailingSpaces(s[a..])]
  {
    StripLeadingSlice(s);
    StripTrailingSlice(s[LeadingRun(s, IsSpace)..]);
  }

  /**
   * The stripped string is the slice of `s` that starts after a
   * whitespace-only prefix and is followed by a whitespace-only suffix; it
   * neither starts nor ends in whitespace, and it is empty exactly when `s`
   * is all whitespace.
   */
  lemma StripSpec(s: string)
    ensures var r := Strip(s);
            && LeadingRun(s, IsSpace) + |r| <= |s|
            && r == s[LeadingRun(s, IsSpace)..LeadingRun(s, IsSpace) + |r|]
            && (forall i :: 0 <= i < LeadingRun(s, IsSpace) ==> IsSpace(s[i]))
            && (forall i :: LeadingRun(s, IsSpace) + |r| <= i < |s| ==> IsSpace(s[i]))
            && (r != [] ==> !IsSpace(r[0]) && !IsSpace(r[|r| - 1]))
            && (r == [] <==> forall i :: 0 <= i < |s| ==> IsSpace(s[i]))
  {
    StripBounds(s);
    StripEnds(s);
  }

  /** `s.strip()` is the run of `s` between its leading and its trailing whitespace. */
  lemma StripBounds(s: string)
    ensures var a := LeadingRun(s, IsSpace);
            var r := Strip(s);
            && a + |r| <= |s|
            && r == s[a..a + |r|]
            && (forall i :: a + |r| <= i < |s| ==> IsSpace(s[i]))
  {
    StripSlice(s);
    TrimTrailingBounds(s, LeadingRun(s, IsSpace));
  }

  /** Cutting the trailing whitespace off `s[a..]` leaves a run of `s` from `a` followed only by whitespace. */
  lemma TrimTrailingBounds(s: string, a: nat)
    requires a <= |s|
    ensures var t := s[a..];
            var r := t[..|t| - TrailingSpaces(t)];
            && a + |r| <= |s|
            && r == s[a..a + |r|]
            && (forall i :: a + |r| <= i < |s| ==> IsSpace(s[i]))
  {
    var t := s[a..];
    var r := t[..|t| - TrailingSpaces(t)];
    assert r == s[a..a + |r|];
    forall i | a + |r| <= i < |s|
      ensures IsSpace(s[i])
    {
      assert s[i] == t[i - a];
    }
  }

  /** `s.strip()` neither starts nor ends in whitespace, and is empty exactly for all-whitespace `s`. */
  lemma StripEnds(s: string)
    ensures var r := Strip(s);
            && (r != [] ==> !IsSpace(r[0]) && !IsSpace(r[|r| - 1]))
            && (r == [] <==> forall i :: 0 <= i < |s| ==> IsSpace(s[i]))
  {
    StripSlice(s);
    TrimEnds(s);
  }

  /** What is left between the leading and the trailing whitespace neither starts nor ends in whitespace. */
  lemma TrimEnds(s: string)
    ensures var t := s[LeadingRun(s, IsSpace)..];
            var r := t[..|t| - TrailingSpaces(t)];
            && (r != [] ==> !IsSpace(r[0]) && !IsSpace(r[|r| - 1]))
            && (r == [] <==> forall i :: 0 <= i < |s| ==> IsSpace(s[i]))
  {
    var a := LeadingRun(s, IsSpace);
    var t := s[a..];
    if a < |s| {
      assert t[0] == s[a];
    }
  }

  /** Stripping a stripped string changes nothing. */
  lemma StripIdempotent(s: string)
    ensures Strip(Strip(s)) == Strip(s)
  {
    var r := Strip(s);
    StripSpec(s);
    StripSpec(r);
    if r != [] {
      assert LeadingRun(r, IsSpace) == 0;
      assert TrailingSpaces(r) == 0;
    }
  }

  /** `"\n".join(lines)`, for a non-empty list of lines. */
  function JoinLines(lines: seq<string>): string
    requires |lines| >= 1
  {
    if |lines| == 1 then lines[0] else lines[0] + "\n" + JoinLines(lines[1..])
  }

  /**
   * `s.split('\n')`: the pieces of `s` between newlines. There is always at
   * least one piece (the empty string gives `[""]`), no piece holds a newline,
   * and joining the pieces with newlines gives `s` back.
   */
  function SplitLines(s: string): (lines: seq<string>)
    ensures |lines| >= 1
    ensures forall i :: 0 <= i < |lines| ==> '\n' !in lines[i]
    ensures JoinLines(lines) == s
  {
    if |s| == 0 then [""]
    else
      var rest := SplitLines(s[1..]);
      if s[0] == '\n' then
        assert ([""] + rest)[1..] == rest;
        [""] + rest
      else
        var lines := [[s[0]] + rest[0]] + rest[1..];
        assert |rest| > 1 ==> lines[1..] == rest[1..];
        lines
  }

  /** A string without newlines is a single piece. */
  lemma {:induction false} SplitSingle(a: string)
    requires '\n' !in a
    ensures SplitLines(a) == [a]
  {
    if |a| > 0 {
      SplitSingle(a[1..]);
    }
  }

  /** Splitting `a + "\n" + b` peels `a` off as the first piece. */
  lemma {:induction false} SplitAtNewline(a: string, b: string)
    requires '\n' !in a
    ensures SplitLines(a + "\n" + b) == [a] + SplitLines(b)
  {
    if |a| == 0 {
      assert (a + "\n" + b)[1..] == b;
    } else {
      assert (a + "\n" + b)[1..] == a[1..] + "\n" + b;
      SplitAtNewline(a[1..], b);
      var rest := SplitLines(a[1..] + "\n" + b);
      assert rest[0] == a[1..] && rest[1..] == SplitLines(b);
      assert [a[0]] + a[1..] == a;
    }
  }

  /** The other round trip: splitting joined newline-free lines gives the lines back. */
  lemma {:induction false} SplitJoin(lines: seq<string>)
    requires |lines| >= 1
    requires forall i :: 0 <= i < |lines| ==> '\n' !in lines[i]
    ensures SplitLines(JoinLines(lines)) == lines
  {
    if |lines| == 1 {
      SplitSingle(lines[0]);
    } else {
      SplitJoin(lines[1..]);
      SplitAtNewline(lines[0], JoinLines(lines[1..]));
    }
  }

  /** `pat` occurs in `s` starting at index `i`. */
  predicate OccursAt(s: string, pat: string, i: nat) {
    i + |pat| <= |s| && s[i..i + |pat|] == pat
  }

  /** Python's `pat in s` for strings. */
  predicate Contains(s: string, pat: string) {
    exists i: nat :: i <= |s| && OccursAt(s, pat, i)
  }

  /** `s.endswith(suffix)`. */
  predicate EndsWith(s: string, suffix: string) {
    |suffix| <= |s| && s[|s| - |suffix|..] == suffix
  }

  /** `str.lower()` on one character, for the ASCII letters. */
  function LowerChar(c: char): (r: char)
    ensures 'A' <= c <= 'Z' ==> 'a' <= r <= 'z'
    ensures !('A' <= c <= 'Z') ==> r == c
  {
    if 'A' <= c <= 'Z' then (c as int + 32) as char else c
  }

  /** `s.lower()`, character by character. */
  function Lower(s: string): (r: string)
    ensures |r| == |s|
  {
    seq(|s|, i requires 0 <= i < |s| => LowerChar(s[i]))
  }
}
