/** Trailing-slash stripping applied to the typed endpoint URL before it is
    stored (`sanitizeEndpoint` in the options page). */
module Sanitization {

  /** True exactly when the last character of `s` is '/'. The empty string
      has no last character (`charAt(-1)` yields ""), so it does not end in '/'. */
  predicate EndsWithSlash(s: string) {
    |s| > 0 && s[|s| - 1] == '/'
  }

  predicate AllSlashes(s: string) {
    forall i :: 0 <= i < |s| ==> s[i] == '/'
  }

  /** `r` is `s` with its whole run of trailing slashes cut off: a prefix of
      `s`, followed in `s` only by slashes, and not itself ending in '/'. */
  predicate IsStrippedOf(r: string, s: string) {
    && r <= s
    && AllSlashes(s[|r|..])
    && !EndsWithSlash(r)
  }

  /** The sanitised form of an endpoint URL. */
  function SanitizeEndpoint(s: string): (r: string)
    ensures IsStrippedOf(r, s)
    decreases |s|
  {
    if EndsWithSlash(s) then
      var r' := SanitizeEndpoint(s[..|s| - 1]);
      assert s[|r'|..] == s[..|s| - 1][|r'|..] + ['/'];
      r'
    else
      s
  }

  /** JavaScript's `String.prototype.charAt`: a one-character string, or ""
      when the index is out of range. */
  function CharAt(s: string, i: int): string {
    if 0 <= i < |s| then [s[i]] else ""
  }

  /** A prefix of `s` that reaches into the slash run following a shorter
      prefix ends in '/'. */
  lemma LongerPrefixEndsWithSlash(r1: string, r2: string, s: string)
    requires r1 <= s && AllSlashes(s[|r1|..])
    requires r2 <= s
    ensures |r1| < |r2| ==> EndsWithSlash(r2)
  {
    if |r1| < |r2| {
      assert r2[|r2| - 1] == s[|r1|..][|r2| - 1 - |r1|];
    }
  }

  /** At most one string is the stripped form of `s`. */
  lemma StrippedUnique(r1: string, r2: string, s: string)
    requires IsStrippedOf(r1, s)
    requires IsStrippedOf(r2, s)
    ensures r1 == r2
  {
    LongerPrefixEndsWithSlash(r1, r2, s);
    LongerPrefixEndsWithSlash(r2, r1, s);
    assert r1 == s[..|r1|] == r2;
  }

  /** `SanitizeEndpoint` is exactly the stripping relation: a string is the
      sanitised form of `s` if and only if it is `s` without its trailing
      slashes. */
  lemma SanitizeCharacterised(r: string, s: string)
    ensures IsStrippedOf(r, s) <==> r == SanitizeEndpoint(s)
  {
    if IsStrippedOf(r, s) {
      StrippedUnique(r, SanitizeEndpoint(s), s);
    }
  }

  /** The same loop as the options page: drop the last character while it is
      '/'. */
  method SanitizeEndpointLoop(str: string) returns (res: string)
    ensures IsStrippedOf(res, str)
    ensures res == SanitizeEndpoint(str)
  {
    res := str;
    while CharAt(res, |res| - 1) == "/"
      invariant res <= str
      invariant AllSlashes(str[|res|..])
      decreases |res|
    {
      assert |res| > 0 && res[|res| - 1] == '/';
      assert str[|res| - 1..] == [res[|res| - 1]] + str[|res|..];
      res := res[..|res| - 1];
    }
    assert !EndsWithSlash(res) by {
      if |res| > 0 {
        assert CharAt(res, |res| - 1) == [res[|res| - 1]];
      }
    }
    SanitizeCharacterised(res, str);
  }

  /** A string that does not end in '/' is returned unchanged, and only such
      strings are. */
  lemma SanitizeFixedPoints(s: string)
    ensures SanitizeEndpoint(s) == s <==> !EndsWithSlash(s)
  {
  }

  /** Sanitising twice is the same as sanitising once. */
  lemma SanitizeIdempotent(s: string)
    ensures SanitizeEndpoint(SanitizeEndpoint(s)) == SanitizeEndpoint(s)
  {
    SanitizeFixedPoints(SanitizeEndpoint(s));
  }

  /** Sanitisation empties exactly the strings made only of slashes, so a
      bare "/" or "///" sanitises to "". */
  lemma SanitizeEmptyIff(s: string)
    ensures SanitizeEndpoint(s) == "" <==> AllSlashes(s)
  {
    if AllSlashes(s) {
      assert s[|""|..] == s;
      SanitizeCharacterised("", s);
    }
  }

  /** Only the part before the trailing slashes matters: appending any run of
      slashes does not change the sanitised form. */
  lemma SanitizeIgnoresTrailingSlashes(s: string, slashes: string)
    requires AllSlashes(slashes)
    ensures SanitizeEndpoint(s + slashes) == SanitizeEndpoint(s)
  {
    var r := SanitizeEndpoint(s);
    assert (s + slashes)[..|s|] == s;
    assert (s + slashes)[|r|..] == s[|r|..] + slashes;
    SanitizeCharacterised(r, s + slashes);
  }
}
