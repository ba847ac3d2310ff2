/** `isValidBase64` of chat-attachments.ts: a structural check, not a decode. */
module Base64 {
  import opened Strings

  /** A character of `[A-Za-z0-9+/]`. */
  predicate IsBase64Char(c: char) {
    'A' <= c <= 'Z' || 'a' <= c <= 'z' || '0' <= c <= '9' || c == '+' || c == '/'
  }

  /** The number of `=` characters at the end of `s`. */
  function TrailingPadCount(s: string): (n: nat)
    ensures n <= |s|
    ensures forall i :: |s| - n <= i < |s| ==> s[i] == '='
    ensures n < |s| ==> s[|s| - 1 - n] != '='
  {
    if s != [] && s[|s| - 1] == '=' then TrailingPadCount(s[..|s| - 1]) + 1 else 0
  }

  /** `/^[A-Za-z0-9+\/]+={0,2}$/.test(s)`, decided by counting the padding at the end. */
  predicate MatchesBase64Pattern(s: string) {
    var pad := TrailingPadCount(s);
    pad <= 2 && pad < |s| && forall i :: 0 <= i < |s| - pad ==> IsBase64Char(s[i])
  }

  /** `s` is a non-empty run of alphabet characters followed by exactly `k` `=` characters. */
  predicate PaddedBody(s: string, k: nat) {
    k < |s|
    && (forall i :: 0 <= i < |s| - k ==> IsBase64Char(s[i]))
    && (forall i :: |s| - k <= i < |s| ==> s[i] == '=')
  }

  /**
   * `isValidBase64`: after removing all whitespace the string is non-empty,
   * its length is a multiple of 4 and it matches the alphabet-then-padding pattern.
   */
  predicate IsValidBase64(value: string)
    ensures IsValidBase64(value) ==> |StripSpaces(value)| >= 4
  {
    var cleaned := StripSpaces(value);
    |cleaned| > 0 && |cleaned| % 4 == 0 && MatchesBase64Pattern(cleaned)
  }

  /**
   * The checks on a cleaned payload that abort the call: it is not valid
   * base64, or its estimated decoded size is not positive or above the ceiling.
   */
  predicate PayloadRejected(b64: string, maxBytes: int, estimate: string -> int) {
    !IsValidBase64(b64) || estimate(b64) <= 0 || estimate(b64) > maxBytes
  }

  /** The padding count is determined by where the `=` run ends. */
  lemma {:induction false} TrailingPadCountIs(s: string, k: nat)
    requires k <= |s|
    requires forall i :: |s| - k <= i < |s| ==> s[i] == '='
    requires k < |s| ==> s[|s| - 1 - k] != '='
    ensures TrailingPadCount(s) == k
    decreases k
  {
    if k > 0 {
      var t := s[..|s| - 1];
      assert s[|s| - 1] == '=';
      forall i | |t| - (k - 1) <= i < |t| ensures t[i] == '=' {
        assert t[i] == s[i];
      }
      if k - 1 < |t| {
        assert t[|t| - 1 - (k - 1)] == s[|s| - 1 - k];
      }
      TrailingPadCountIs(t, k - 1);
    } else if s != [] {
      assert s[|s| - 1] != '=';
    }
  }

  /** The pattern test agrees with the regular expression read as "alphabet+, then zero to two `=`". */
  lemma PatternMeansPaddedBody(s: string)
    ensures MatchesBase64Pattern(s) <==> PaddedBody(s, 0) || PaddedBody(s, 1) || PaddedBody(s, 2)
  {
    var pad := TrailingPadCount(s);
    if MatchesBase64Pattern(s) {
      assert PaddedBody(s, pad);
    }
    forall k: nat | k <= 2 && PaddedBody(s, k) ensures MatchesBase64Pattern(s) {
      assert IsBase64Char(s[|s| - 1 - k]);
      TrailingPadCountIs(s, k);
    }
  }

  /** `isValidBase64(s)` holds exactly when the whitespace-free `s` is non-empty, of length 0 mod 4 and padded correctly. */
  lemma ValidBase64Iff(value: string)
    ensures var c := StripSpaces(value);
      IsValidBase64(value) <==>
        |c| > 0 && |c| % 4 == 0 && (PaddedBody(c, 0) || PaddedBody(c, 1) || PaddedBody(c, 2))
  {
    PatternMeansPaddedBody(StripSpaces(value));
  }

  /** Inserting a whitespace character anywhere does not change the verdict. */
  lemma ValidBase64IgnoresInsertedSpace(a: string, w: char, b: string)
    requires IsSpace(w)
    ensures IsValidBase64(a + [w] + b) == IsValidBase64(a + b)
  {
    StripSpacesIgnoresInsertedSpace(a, w, b);
  }

  /** Stripping the whitespace first does not change the verdict. */
  lemma ValidBase64OfStripped(s: string)
    ensures IsValidBase64(StripSpaces(s)) == IsValidBase64(s)
  {
    StripSpacesIdempotent(s);
  }

  /** A whitespace-free string that passes the check holds only alphabet and `=` characters. */
  lemma ValidBase64Alphabet(s: string)
    requires NoSpace(s) && IsValidBase64(s)
    ensures forall i :: 0 <= i < |s| ==> IsBase64Char(s[i]) || s[i] == '='
  {
    StripSpacesOfNoSpace(s);
  }

  /** A whitespace-free string that passes the check cannot still carry a `data:` prefix. */
  lemma ValidBase64IsNotDataUrl(s: string)
    requires NoSpace(s) && IsValidBase64(s)
    ensures ':' !in s && !StartsWith(s, "data:")
  {
    ValidBase64Alphabet(s);
    assert ':' !in s;
    assert "data:"[4] == ':';
  }
}
