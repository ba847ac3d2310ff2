/** The `data:<mime>;base64,<payload>` prefix that parseMessageWithAttachments strips. */
module DataUrl {
  import opened Wrappers
  import opened Strings

  /**
   * The capture of `/^data:[^;]+;base64,([\s\S]*)$/`. Since `[^;]` cannot
   * match `;`, the media type runs exactly up to the first `;` after `data:`.
   */
  function MatchDataUrl(s: string): (r: Option<string>)
    ensures r.Some? ==> StartsWith(s, "data:") && |r.value| + 14 <= |s| && r.value == s[|s| - |r.value|..]
  {
    if !StartsWith(s, "data:") then None
    else
      var rest := s[5..];
      var m := BeforeFirst(rest, ';');
      if m != [] && StartsWith(rest[|m|..], ";base64,") then Some(rest[|m| + 8..]) else None
  }

  /** The payload when `s` is a base64 data URL, otherwise `s` itself. */
  function StripDataUrl(s: string): (r: string)
    ensures |r| <= |s| && r == s[|s| - |r|..]
    ensures MatchDataUrl(s).None? ==> r == s
  {
    match MatchDataUrl(s)
    case Some(payload) => payload
    case None => s
  }

  /** Every base64 data URL matches, and its capture is its payload. */
  lemma DataUrlMatchComplete(m: string, payload: string)
    requires m != [] && ';' !in m
    ensures MatchDataUrl("data:" + m + ";base64," + payload) == Some(payload)
  {
    var s := "data:" + m + ";base64," + payload;
    assert s[..5] == "data:";
    var rest := s[5..];
    assert rest == m + ";base64," + payload;
    var h := BeforeFirst(rest, ';');
    assert h == m by {
      assert rest[..|m|] == m;
      assert rest[|m|] == ';';
    }
    assert rest[|m|..] == ";base64," + payload;
    assert rest[|m| + 8..] == payload;
  }

  /** Whatever matches is `data:`, a media type without `;`, `;base64,`, then the captured payload. */
  lemma DataUrlMatchSound(s: string)
    requires MatchDataUrl(s).Some?
    ensures var m := BeforeFirst(s[5..], ';');
      m != [] && ';' !in m && s == "data:" + m + ";base64," + MatchDataUrl(s).value
  {
    var rest := s[5..];
    var m := BeforeFirst(rest, ';');
    var p := rest[|m| + 8..];
    assert MatchDataUrl(s).value == p;
    assert rest[|m|..|m| + 8] == ";base64,";
    assert rest == m + rest[|m|..|m| + 8] + p;
    assert s == s[..5] + rest;
  }
}
