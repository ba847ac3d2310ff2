/** `normalizeMime`, `isImageMime` and the `isAudio` test of chat-attachments.ts. */
module Mime {
  import opened Wrappers
  import opened Strings

  /** The form `normalizeMime` produces: non-empty, trimmed, lower-case and without a `;` parameter. */
  predicate IsNormalMime(m: string) {
    m != [] && IsTrimmed(m) && ';' !in m && NoUpper(m)
  }

  /**
   * `normalizeMime`: keep the text before the first `;`, trim it and lower-case
   * it; an absent or empty input, or an empty outcome, gives no value.
   */
  function NormalizeMime(mime: Option<string>): (r: Option<string>)
    ensures r.Some? ==> IsNormalMime(r.value)
  {
    if mime.None? || mime.value == "" then None
    else
      var head := BeforeFirst(mime.value, ';');
      var trimmed := Trim(head);
      var cleaned := ToLowerAscii(trimmed);
      TrimKeepsAbsent(head, ';');
      LowerKeepsShape(trimmed);
      if cleaned == "" then None
      else Some(cleaned)
  }

  /** Lower-casing keeps a trimmed string trimmed and adds no `;`. */
  lemma LowerKeepsShape(s: string)
    ensures IsTrimmed(s) ==> IsTrimmed(ToLowerAscii(s))
    ensures ';' !in s ==> ';' !in ToLowerAscii(s)
  {
    var r := ToLowerAscii(s);
    if ';' in r {
      var k :| 0 <= k < |r| && r[k] == ';';
      assert s[k] == ';';
    }
  }

  /** The normal forms are exactly the strings `normalizeMime` leaves unchanged. */
  lemma NormalMimeIsFixedPoint(m: string)
    ensures IsNormalMime(m) <==> NormalizeMime(Some(m)) == Some(m)
  {
    if IsNormalMime(m) {
      var head := BeforeFirst(m, ';');
      assert head == m;
      TrimOfTrimmed(m);
      ToLowerAsciiOfLower(m);
    }
  }

  lemma TrimOfTrimmed(s: string)
    requires IsTrimmed(s)
    ensures Trim(s) == s
  {
  }

  /** `normalizeMime` is idempotent. */
  lemma NormalizeMimeIdempotent(mime: Option<string>)
    ensures NormalizeMime(NormalizeMime(mime)) == NormalizeMime(mime)
  {
    if NormalizeMime(mime).Some? {
      NormalMimeIsFixedPoint(NormalizeMime(mime).value);
    }
  }

  /** `isImageMime`: a string that starts with `image/`; such a type is never also an audio type. */
  predicate IsImageMime(mime: Option<string>)
    ensures IsImageMime(mime) ==> !IsAudioMime(mime)
  {
    assert "image/"[0] == 'i' && "audio/"[0] == 'a';
    mime.Some? && StartsWith(mime.value, "image/")
  }

  /**
   * The `isAudio` test of parseMessageWithAttachments: a non-empty string
   * that starts with `audio/`; the truthiness test adds nothing to the prefix test.
   */
  predicate IsAudioMime(mime: Option<string>)
    ensures IsAudioMime(mime) <==> mime.Some? && StartsWith(mime.value, "audio/")
  {
    mime.Some? && mime.value != "" && StartsWith(mime.value, "audio/")
  }

  /**
   * A declared type that already starts with `image/` or `audio/` still does
   * after normalisation, so `normalizeMime` never discards a media type.
   */
  lemma {:induction false} MediaPrefixSurvivesNormalization(m: string)
    ensures IsImageMime(Some(m)) ==> IsImageMime(NormalizeMime(Some(m)))
    ensures IsAudioMime(Some(m)) ==> IsAudioMime(NormalizeMime(Some(m)))
  {
    if IsImageMime(Some(m)) {
      PlainPrefix("image/");
      PrefixSurvives(m, "image/");
    }
    if IsAudioMime(Some(m)) {
      PlainPrefix("audio/");
      PrefixSurvives(m, "audio/");
    }
  }

  lemma PrefixSurvives(m: string, p: string)
    requires p != [] && NoSpace(p) && NoUpper(p) && ';' !in p
    requires StartsWith(m, p)
    ensures NormalizeMime(Some(m)).Some? && StartsWith(NormalizeMime(Some(m)).value, p)
  {
    var head := BeforeFirst(m, ';');
    BeforeFirstKeepsPrefix(m, p);
    var trimmed := Trim(head);
    TrimKeepsPrefix(head, p);
    var cleaned := ToLowerAscii(trimmed);
    LowerKeepsPrefix(trimmed, p);
    assert cleaned != "";
    assert NormalizeMime(Some(m)) == Some(cleaned);
  }

  lemma PlainPrefix(p: string)
    requires p == "image/" || p == "audio/"
    ensures p != [] && NoSpace(p) && NoUpper(p) && ';' !in p
  {
    assert forall i :: 0 <= i < |p| ==> 'a' <= p[i] <= 'z' || p[i] == '/';
  }

  lemma BeforeFirstKeepsPrefix(m: string, p: string)
    requires ';' !in p && StartsWith(m, p)
    ensures StartsWith(BeforeFirst(m, ';'), p)
  {
  }

  /** Trimming cannot cut into a non-empty prefix that has no whitespace. */
  lemma TrimKeepsPrefix(s: string, p: string)
    requires p != [] && NoSpace(p) && StartsWith(s, p)
    ensures StartsWith(Trim(s), p)
  {
    var t := TrimStart(s);
    assert t == s by {
      assert !IsSpace(s[0]) by { assert s[0] == p[0]; }
    }
    var r := TrimEnd(t);
    assert |r| >= |p| by {
      assert !IsSpace(t[|p| - 1]) by { assert t[|p| - 1] == p[|p| - 1]; }
    }
    assert r[..|p|] == t[..|p|];
    assert Trim(s) == r;
  }

  /** Lower-casing keeps a prefix that has no upper-case letter. */
  lemma LowerKeepsPrefix(s: string, p: string)
    requires NoUpper(p) && StartsWith(s, p)
    ensures StartsWith(ToLowerAscii(s), p)
  {
    var r := ToLowerAscii(s);
    assert forall i :: 0 <= i < |p| ==> r[i] == s[i] by {
      forall i | 0 <= i < |p| ensures r[i] == s[i] {
        assert s[i] == p[i];
      }
    }
    assert r[..|p|] == p;
  }
}
