/**
 * `buildMessageWithAttachments` (deprecated): attachments inlined into the
 * message as markdown image links with base64 data URLs.
 */
module BuildAttachments {
  import opened Wrappers
  import opened Strings
  import opened Base64
  import opened AttachmentTypes
  import opened Walk

  /** The default ceiling on the estimated decoded size, in bytes. */
  const DefaultMaxBytes: int := 2_000_000

  /** The blank line between the message and the links and between two links. */
  const BlankLine: string := "\n\n"

  /** `opts?.maxBytes ?? 2_000_000`. */
  function Limit(maxBytesOption: Option<int>): (r: int)
    ensures maxBytesOption.Some? ==> r == maxBytesOption.value
    ensures maxBytesOption.None? ==> r == DefaultMaxBytes
  {
    maxBytesOption.GetOr(DefaultMaxBytes)
  }

  /** `![safeLabel](data:<mime>;base64,<content>)`, with whitespace runs in the label made `_`. */
  function MarkdownImage(name: string, mime: string, content: string): (r: string)
    ensures StartsWith(r, "![") && r[|r| - 1] == ')'
    ensures |content| < |r| && r[|r| - 1 - |content|..|r| - 1] == content
  {
    "![" + ReplaceSpaceRuns(name) + "](data:" + mime + ";base64," + content + ")"
  }

  /**
   * What one present attachment contributes. The declared type is used as
   * given (no normalisation, no sniffing), the payload is only trimmed (no
   * data-URL prefix is removed) and the link embeds the untrimmed content.
   */
  function BuildStep(idx: nat, att: Attachment, maxBytes: int, estimate: string -> int): (r: Outcome<string>)
    ensures !r.Skip?
    ensures r.Keep? ==> (att.content.TextContent?
      && r.item == MarkdownImage(Label(idx, att), att.mimeType.GetOr(""), att.content.text))
    ensures att.content.NonString? ==> r == Fail(ContentNotString(Label(idx, att)))
    ensures (att.content.TextContent? && !StartsWith(att.mimeType.GetOr(""), "image/"))
      ==> r == Fail(NotAnImage(Label(idx, att)))
    ensures (att.content.TextContent? && StartsWith(att.mimeType.GetOr(""), "image/")
      && !IsValidBase64(Trim(att.content.text))) ==> r == Fail(InvalidBase64(Label(idx, att)))
    ensures (att.content.TextContent? && StartsWith(att.mimeType.GetOr(""), "image/")
      && IsValidBase64(Trim(att.content.text))
      && (estimate(Trim(att.content.text)) <= 0 || estimate(Trim(att.content.text)) > maxBytes))
      ==> r == Fail(SizeOutOfRange(Label(idx, att), estimate(Trim(att.content.text)), maxBytes))
  {
    var mime := att.mimeType.GetOr("");
    var name := Label(idx, att);
    match att.content
    case NonString => Fail(ContentNotString(name))
    case TextContent(content) =>
      if !StartsWith(mime, "image/") then Fail(NotAnImage(name))
      else
        var b64 := Trim(content);
        if !IsValidBase64(b64) then Fail(InvalidBase64(name))
        else
          var sizeBytes := estimate(b64);
          if sizeBytes <= 0 || sizeBytes > maxBytes then Fail(SizeOutOfRange(name, sizeBytes, maxBytes))
          else Keep(MarkdownImage(name, mime, content))
  }

  function BuildEntry(idx: nat, entry: Option<Attachment>, maxBytes: int, estimate: string -> int): (r: Outcome<string>)
    ensures r.Skip? <==> entry.None?
  {
    match entry
    case None => Skip(AbsentEntry)
    case Some(att) => BuildStep(idx, att, maxBytes, estimate)
  }

  function BuildOutcomes(atts: seq<Option<Attachment>>, maxBytes: int, estimate: string -> int): (r: seq<Outcome<string>>)
    ensures |r| == |atts|
  {
    seq(|atts|, i requires 0 <= i < |atts| => BuildEntry(i, atts[i], maxBytes, estimate))
  }

  /** The message followed by the links; no separator when the message is blank. */
  function Assemble(message: string, blocks: seq<string>): (r: string)
    ensures StartsWith(r, message)
    ensures |blocks| == 0 ==> r == message
  {
    if |blocks| == 0 then message
    else
      var separator := if |Trim(message)| > 0 then BlankLine else "";
      PrefixOfConcat(message, separator, Join(blocks, BlankLine));
      message + separator + Join(blocks, BlankLine)
  }

  /** The string `buildMessageWithAttachments` returns, or the error it throws. */
  function Build(
    message: string, attachments: Option<seq<Option<Attachment>>>, maxBytesOption: Option<int>,
    estimate: string -> int): (r: Result<string, AttachmentError>)
    ensures r.Success? ==> StartsWith(r.value, message)
  {
    if attachments.None? || |attachments.value| == 0 then Success(message)
    else
      match Collect(BuildOutcomes(attachments.value, Limit(maxBytesOption), estimate))
      case Failure(e) => Failure(e)
      case Success(blocks) => Success(Assemble(message, blocks))
  }

  /**
   * The loop of buildMessageWithAttachments: each present attachment is
   * checked in order, a failed check returns at once, and every accepted
   * attachment appends one markdown link to `blocks`.
   */
  method BuildMessageWithAttachments(
    message: string, attachments: Option<seq<Option<Attachment>>>, maxBytesOption: Option<int>,
    estimate: string -> int)
    returns (r: Result<string, AttachmentError>)
    ensures r == Build(message, attachments, maxBytesOption, estimate)
  {
    var maxBytes := Limit(maxBytesOption);
    if attachments.None? || |attachments.value| == 0 {
      return Success(message);
    }
    var atts := attachments.value;
    ghost var outcomes := BuildOutcomes(atts, maxBytes, estimate);
    var blocks: seq<string> := [];
    for idx := 0 to |atts|
      invariant Collect(outcomes[..idx]) == Success(blocks)
    {
      if atts[idx].None? {
        CollectSkipsOne(outcomes, idx);
        continue;
      }
      var att := atts[idx].value;
      assert outcomes[idx] == BuildStep(idx, att, maxBytes, estimate);
      var mime := att.mimeType.GetOr("");
      var content := att.content;
      var name := Label(idx, att);
      if content.NonString? {
        CollectFailsAt(outcomes, idx);
        BuildFailsWith(message, atts, maxBytesOption, estimate);
        return Failure(ContentNotString(name));
      }
      if !StartsWith(mime, "image/") {
        CollectFailsAt(outcomes, idx);
        BuildFailsWith(message, atts, maxBytesOption, estimate);
        return Failure(NotAnImage(name));
      }
      var b64 := Trim(content.text);
      if !IsValidBase64(b64) {
        CollectFailsAt(outcomes, idx);
        BuildFailsWith(message, atts, maxBytesOption, estimate);
        return Failure(InvalidBase64(name));
      }
      var sizeBytes := estimate(b64);
      if sizeBytes <= 0 || sizeBytes > maxBytes {
        CollectFailsAt(outcomes, idx);
        BuildFailsWith(message, atts, maxBytesOption, estimate);
        return Failure(SizeOutOfRange(name, sizeBytes, maxBytes));
      }
      var safeLabel := ReplaceSpaceRuns(name);
      var dataUrl := "![" + safeLabel + "](data:" + mime + ";base64," + content.text + ")";
      CollectKeepsOne(outcomes, idx, blocks);
      blocks := blocks + [dataUrl];
    }
    assert outcomes[..|atts|] == outcomes;
    BuildCollected(message, atts, maxBytesOption, estimate, blocks);
    if |blocks| == 0 {
      return Success(message);
    }
    var separator := if |Trim(message)| > 0 then BlankLine else "";
    var out := message + separator + Join(blocks, BlankLine);
    AssembleOfLinks(message, blocks);
    return Success(out);
  }

  // -------------------------------------------------------------------------
  // Properties
  // -------------------------------------------------------------------------

  /** An entry whose checks abort the call. */
  predicate Rejects(idx: nat, entry: Option<Attachment>, maxBytes: int, estimate: string -> int)
  {
    BuildEntry(idx, entry, maxBytes, estimate).Fail?
  }

  /**
   * Which attachments abort the call: content that is not a string, a raw
   * declared type that does not start with `image/`, or a trimmed payload
   * that is not valid base64 or whose estimate is out of range.
   */
  lemma BuildRejectsIff(idx: nat, att: Attachment, maxBytes: int, estimate: string -> int)
    ensures Rejects(idx, Some(att), maxBytes, estimate) <==>
      (att.content.NonString? || !StartsWith(att.mimeType.GetOr(""), "image/")
       || PayloadRejected(Trim(att.content.text), maxBytes, estimate))
  {
  }

  /** The call fails exactly when some present attachment fails its checks. */
  lemma BuildFailsIff(
    message: string, atts: seq<Option<Attachment>>, maxBytesOption: Option<int>, estimate: string -> int)
    ensures Build(message, Some(atts), maxBytesOption, estimate).Failure?
      <==> exists i :: 0 <= i < |atts| && Rejects(i, atts[i], Limit(maxBytesOption), estimate)
  {
    var outcomes := BuildOutcomes(atts, Limit(maxBytesOption), estimate);
    CollectFailsIff(outcomes);
    assert forall i :: 0 <= i < |atts| ==> outcomes[i] == BuildEntry(i, atts[i], Limit(maxBytesOption), estimate);
  }

  /** A present attachment whose raw declared type is not an `image/` type fails the call. */
  lemma BuildRejectsNonImage(
    message: string, atts: seq<Option<Attachment>>, maxBytesOption: Option<int>, estimate: string -> int, i: nat)
    requires i < |atts| && atts[i].Some?
    requires !StartsWith(atts[i].value.mimeType.GetOr(""), "image/")
    ensures Build(message, Some(atts), maxBytesOption, estimate).Failure?
  {
    assert Rejects(i, atts[i], Limit(maxBytesOption), estimate);
    BuildFailsIff(message, atts, maxBytesOption, estimate);
  }

  /** With no present attachment there are no links and the message comes back unchanged. */
  lemma BuildWithoutBlocks(
    message: string, atts: seq<Option<Attachment>>, maxBytesOption: Option<int>, estimate: string -> int)
    requires forall i :: 0 <= i < |atts| ==> atts[i].None?
    ensures Build(message, Some(atts), maxBytesOption, estimate) == Success(message)
  {
    var outcomes := BuildOutcomes(atts, Limit(maxBytesOption), estimate);
    CollectAllSkipped(outcomes);
  }

  /** Each kept position holds a present attachment with string content. */
  predicate KeptText(atts: seq<Option<Attachment>>, kept: seq<nat>)
  {
    forall j :: 0 <= j < |kept| ==> kept[j] < |atts| && atts[kept[j]].Some? && atts[kept[j]].value.content.TextContent?
  }

  /** The markdown links of the attachments at the kept positions, in that order. */
  function Links(atts: seq<Option<Attachment>>, kept: seq<nat>): (r: seq<string>)
    requires KeptText(atts, kept)
    ensures |r| == |kept|
  {
    seq(|kept|, j requires 0 <= j < |kept| =>
      var att := atts[kept[j]].value;
      MarkdownImage(Label(kept[j], att), att.mimeType.GetOr(""), att.content.text))
  }

  /** The collected links are those of the accepted attachments, in input order. */
  lemma BuildLinksInOrder(atts: seq<Option<Attachment>>, maxBytes: int, estimate: string -> int)
    requires Collect(BuildOutcomes(atts, maxBytes, estimate)).Success?
    ensures var outcomes := BuildOutcomes(atts, maxBytes, estimate);
      KeptText(atts, KeptIndices(outcomes))
      && Collect(outcomes).value == Links(atts, KeptIndices(outcomes))
  {
    var outcomes := BuildOutcomes(atts, maxBytes, estimate);
    var items := Collect(outcomes).value;
    var kept := KeptIndices(outcomes);
    CollectKeepsInOrder(outcomes);
    forall j | 0 <= j < |kept|
      ensures atts[kept[j]].Some? && atts[kept[j]].value.content.TextContent?
      ensures items[j] == MarkdownImage(Label(kept[j], atts[kept[j]].value),
        atts[kept[j]].value.mimeType.GetOr(""), atts[kept[j]].value.content.text)
    {
      assert outcomes[kept[j]] == BuildEntry(kept[j], atts[kept[j]], maxBytes, estimate);
    }
    assert items == Links(atts, kept);
  }

  /**
   * A successful call returns the message, then a blank line unless the
   * message is blank, then the links of the accepted attachments in input
   * order joined by blank lines; each link names its attachment's label with
   * whitespace runs made `_` and embeds its declared type and content.
   */
  lemma BuildEmbedsInOrder(
    message: string, atts: seq<Option<Attachment>>, maxBytesOption: Option<int>, estimate: string -> int)
    requires Build(message, Some(atts), maxBytesOption, estimate).Success?
    ensures var out := Build(message, Some(atts), maxBytesOption, estimate).value;
      var kept := KeptIndices(BuildOutcomes(atts, Limit(maxBytesOption), estimate));
      && KeptText(atts, kept)
      && (forall i :: 0 <= i < |atts| && atts[i].Some? ==> i in kept)
      && (kept == [] ==> out == message)
      && (kept != [] ==> out == message + (if |Trim(message)| > 0 then BlankLine else "") + Join(Links(atts, kept), BlankLine))
  {
    var outcomes := BuildOutcomes(atts, Limit(maxBytesOption), estimate);
    BuildKeepsEveryPresent(message, atts, maxBytesOption, estimate);
    if |atts| > 0 {
      BuildLinksInOrder(atts, Limit(maxBytesOption), estimate);
      assert Build(message, Some(atts), maxBytesOption, estimate) == Success(Assemble(message, Collect(outcomes).value));
    }
  }

  /** A successful call keeps every present attachment: no check drops one silently. */
  lemma BuildKeepsEveryPresent(
    message: string, atts: seq<Option<Attachment>>, maxBytesOption: Option<int>, estimate: string -> int)
    requires Build(message, Some(atts), maxBytesOption, estimate).Success?
    ensures forall i :: 0 <= i < |atts| && atts[i].Some? ==>
      i in KeptIndices(BuildOutcomes(atts, Limit(maxBytesOption), estimate))
  {
    var outcomes := BuildOutcomes(atts, Limit(maxBytesOption), estimate);
    BuildFailsIff(message, atts, maxBytesOption, estimate);
    forall i | 0 <= i < |atts| && atts[i].Some?
      ensures outcomes[i].Keep?
    {
      assert outcomes[i] == BuildEntry(i, atts[i], Limit(maxBytesOption), estimate);
      assert !Rejects(i, atts[i], Limit(maxBytesOption), estimate);
    }
  }

  /** One accepted image and an empty message give exactly that image's link. */
  lemma BuildSingleImageAlone(att: Attachment, maxBytesOption: Option<int>, estimate: string -> int)
    requires BuildStep(0, att, Limit(maxBytesOption), estimate).Keep?
    ensures Build("", Some([Some(att)]), maxBytesOption, estimate)
      == Success(BuildStep(0, att, Limit(maxBytesOption), estimate).item)
  {
    var maxBytes := Limit(maxBytesOption);
    var item := BuildStep(0, att, maxBytes, estimate).item;
    SingleOutcome(att, maxBytes, estimate);
    CollectSingle(BuildOutcomes([Some(att)], maxBytes, estimate), item);
    BuildCollected("", [Some(att)], maxBytesOption, estimate, [item]);
    AssembleAlone(item);
  }

  lemma BuildFailsWith(
    message: string, atts: seq<Option<Attachment>>, maxBytesOption: Option<int>, estimate: string -> int)
    requires |atts| > 0 && Collect(BuildOutcomes(atts, Limit(maxBytesOption), estimate)).Failure?
    ensures Build(message, Some(atts), maxBytesOption, estimate)
      == Failure(Collect(BuildOutcomes(atts, Limit(maxBytesOption), estimate)).error)
  {
  }

  lemma BuildCollected(
    message: string, atts: seq<Option<Attachment>>, maxBytesOption: Option<int>, estimate: string -> int,
    blocks: seq<string>)
    requires |atts| > 0 && Collect(BuildOutcomes(atts, Limit(maxBytesOption), estimate)) == Success(blocks)
    ensures Build(message, Some(atts), maxBytesOption, estimate) == Success(Assemble(message, blocks))
  {
  }

  lemma SingleOutcome(att: Attachment, maxBytes: int, estimate: string -> int)
    ensures BuildOutcomes([Some(att)], maxBytes, estimate) == [BuildStep(0, att, maxBytes, estimate)]
  {
    var outcomes := BuildOutcomes([Some(att)], maxBytes, estimate);
    assert outcomes[0] == BuildEntry(0, Some(att), maxBytes, estimate);
  }

  lemma AssembleOfLinks(message: string, blocks: seq<string>)
    requires |blocks| > 0
    ensures Assemble(message, blocks)
      == message + (if |Trim(message)| > 0 then BlankLine else "") + Join(blocks, BlankLine)
  {
  }

  /** A single link after an empty message is the whole output. */
  lemma AssembleAlone(item: string)
    ensures Assemble("", [item]) == item
  {
    assert TrimStart("") == "" && TrimEnd("") == "";
    assert Join([item], BlankLine) == item;
  }
}
