/**
 * The file-name sanitisers. Every script uses the character class
 * `[<>:"/\\|?*]` (the characters Windows forbids in a file name). The
 * party-name script and the renaming script delete those characters; the
 * order-id script replaces each one with `_`.
 */
module Sanitize {
  import opened PyStr

  /** The characters of the class `[<>:"/\\|?*]`. */
  const IllegalChars: string := "<>:\"/\\|?*"

  predicate IsIllegal(c: char) {
    c in IllegalChars
  }

  /** `s` holds no illegal character. */
  predicate Clean(s: string) {
    forall i :: 0 <= i < |s| ==> !IsIllegal(s[i])
  }

  /** Stripping keeps a clean string clean: it only removes characters. */
  lemma StripClean(s: string)
    requires Clean(s)
    ensures Clean(Strip(s))
  {
    StripSpec(s);
  }

  /** `re.sub(r'[<>:"/\\|?*]', '', s)`. */
  function SanitizeDelete(s: string): (r: string)
    ensures |r| <= |s|
  {
    if s == [] then []
    else (if IsIllegal(s[0]) then [] else [s[0]]) + SanitizeDelete(s[1..])
  }

  /** Deleting leaves no illegal character and changes a clean string not at all. */
  lemma {:induction false} DeleteClean(s: string)
    ensures Clean(SanitizeDelete(s))
    ensures Clean(s) ==> SanitizeDelete(s) == s
  {
    if s != [] {
      DeleteClean(s[1..]);
      var r := SanitizeDelete(s);
      var head := if IsIllegal(s[0]) then [] else [s[0]];
      assert r == head + SanitizeDelete(s[1..]);
      if Clean(s) {
        assert Clean(s[1..]) by {
          forall i | 0 <= i < |s[1..]|
            ensures !IsIllegal(s[1..][i])
          {
            assert s[1..][i] == s[i + 1];
          }
        }
        assert !IsIllegal(s[0]);
        assert s == [s[0]] + s[1..];
      }
    }
  }

  /** Deleting commutes with concatenation, so the kept characters stay in their order. */
  lemma {:induction false} DeleteAppend(a: string, b: string)
    ensures SanitizeDelete(a + b) == SanitizeDelete(a) + SanitizeDelete(b)
  {
    if a == [] {
      assert a + b == b;
    } else {
      var head := if IsIllegal(a[0]) then [] else [a[0]];
      assert (a + b)[0] == a[0] && (a + b)[1..] == a[1..] + b;
      assert SanitizeDelete(a + b) == head + SanitizeDelete(a[1..] + b);
      DeleteAppend(a[1..], b);
      assert head + (SanitizeDelete(a[1..]) + SanitizeDelete(b)) == (head + SanitizeDelete(a[1..])) + SanitizeDelete(b);
    }
  }

  /**
   * Deleting keeps every legal character as often as it occurs and drops
   * every illegal one.
   */
  lemma {:induction false} DeleteCounts(s: string, c: char)
    ensures multiset(SanitizeDelete(s))[c] == if IsIllegal(c) then 0 else multiset(s)[c]
  {
    if s != [] {
      DeleteCounts(s[1..], c);
      var head := if IsIllegal(s[0]) then [] else [s[0]];
      assert SanitizeDelete(s) == head + SanitizeDelete(s[1..]);
      assert s == [s[0]] + s[1..];
      assert multiset(s) == multiset([s[0]]) + multiset(s[1..]);
    }
  }

  /** Applying the deleting sanitiser twice is the same as applying it once. */
  lemma DeleteIdempotent(s: string)
    ensures SanitizeDelete(SanitizeDelete(s)) == SanitizeDelete(s)
  {
    DeleteClean(s);
    DeleteClean(SanitizeDelete(s));
  }

  /** `re.sub(r'[<>:"/\\|?*]', '_', s)`. */
  function SanitizeReplace(s: string): (r: string)
    ensures |r| == |s|
  {
    if s == [] then []
    else [if IsIllegal(s[0]) then '_' else s[0]] + SanitizeReplace(s[1..])
  }

  /** Replacing keeps the length and turns exactly the illegal characters into `_`. */
  lemma {:induction false} ReplacePointwise(s: string)
    ensures forall i :: 0 <= i < |s| ==> SanitizeReplace(s)[i] == if IsIllegal(s[i]) then '_' else s[i]
  {
    if s != [] {
      ReplacePointwise(s[1..]);
      var r := SanitizeReplace(s);
      forall i | 0 <= i < |s|
        ensures r[i] == if IsIllegal(s[i]) then '_' else s[i]
      {
        if i > 0 {
          assert r[i] == SanitizeReplace(s[1..])[i - 1];
        }
      }
    }
  }

  /** Replacing leaves no illegal character and changes a clean string not at all. */
  lemma ReplaceClean(s: string)
    ensures Clean(SanitizeReplace(s))
    ensures Clean(s) ==> SanitizeReplace(s) == s
  {
    ReplacePointwise(s);
    assert '_' !in IllegalChars;
  }

  /** Applying the replacing sanitiser twice is the same as applying it once. */
  lemma ReplaceIdempotent(s: string)
    ensures SanitizeReplace(SanitizeReplace(s)) == SanitizeReplace(s)
  {
    ReplaceClean(s);
    ReplaceClean(SanitizeReplace(s));
  }

  /** Which of the two sanitisers a script uses. */
  datatype Mode = DeleteIllegal | ReplaceIllegal

  /** The sanitiser of the given script. */
  function Sanitized(mode: Mode, s: string): string {
    match mode
    case DeleteIllegal => SanitizeDelete(s)
    case ReplaceIllegal => SanitizeReplace(s)
  }

  /** Either sanitiser leaves no illegal character, never lengthens its input and changes a clean string not at all. */
  lemma SanitizedSpec(mode: Mode, s: string)
    ensures Clean(Sanitized(mode, s))
    ensures |Sanitized(mode, s)| <= |s|
    ensures Clean(s) ==> Sanitized(mode, s) == s
  {
    if mode == ReplaceIllegal {
      ReplaceClean(s);
    } else {
      DeleteClean(s);
    }
  }
}
