/** `parseMessageWithAttachments`: attachments to structured image and audio blocks. */
module ParseAttachments {
  import opened Wrappers
  import opened Strings
  import opened Mime
  import opened Base64
  import opened DataUrl
  import opened AttachmentTypes
  import opened Walk

  /** The default ceiling on the estimated decoded size, in bytes. */
  const DefaultMaxBytes: int := 5_000_000

  /** The content after trimming, removing a base64 data-URL prefix and removing all whitespace. */
  function CleanBase64(content: string): (r: string)
    ensures NoSpace(r) && |r| <= |content|
  {
    StripSpaces(StripDataUrl(Trim(content)))
  }

  /** `sniffedMime ?? providedMime ?? mime`. */
  function EffectiveMime(sniffed: Option<string>, provided: Option<string>, raw: string): (r: string)
    requires sniffed.Some? ==> IsNormalMime(sniffed.value)
    requires provided == NormalizeMime(Some(raw))
    ensures sniffed.Some? ==> r == sniffed.value
    ensures sniffed.None? && provided.Some? ==> r == provided.value
    ensures sniffed.None? && provided.None? ==> r == raw
    ensures IsImageMime(Some(r)) || IsAudioMime(Some(r)) ==> IsNormalMime(r)
  {
    MediaPrefixSurvivesNormalization(raw);
    if sniffed.Some? then sniffed.value else if provided.Some? then provided.value else raw
  }

  /** What one present attachment at position `idx` contributes. */
  function ParseStep(
    idx: nat, att: Attachment, maxBytes: int,
    estimate: string -> int, sniff: string -> Option<string>): (r: Outcome<MediaBlock>)
    ensures att.content.NonString? ==> r == Fail(ContentNotString(Label(idx, att)))
  {
    var mime := att.mimeType.GetOr("");
    var name := Label(idx, att);
    match att.content
    case NonString => Fail(ContentNotString(name))
    case TextContent(content) => CheckPayload(name, mime, CleanBase64(content), maxBytes, estimate, sniff)
  }

  /** The base64 and size checks on the cleaned payload, then the media classification. */
  function CheckPayload(
    name: string, mime: string, b64: string, maxBytes: int,
    estimate: string -> int, sniff: string -> Option<string>): (r: Outcome<MediaBlock>)
    ensures !IsValidBase64(b64) ==> r == Fail(InvalidBase64(name))
    ensures IsValidBase64(b64) && (estimate(b64) <= 0 || estimate(b64) > maxBytes)
      ==> r == Fail(SizeOutOfRange(name, estimate(b64), maxBytes))
    ensures IsValidBase64(b64) && 0 < estimate(b64) <= maxBytes ==> r == ClassifyMedia(name, mime, b64, sniff)
  {
    if !IsValidBase64(b64) then Fail(InvalidBase64(name))
    else
      var sizeBytes := estimate(b64);
      if sizeBytes <= 0 || sizeBytes > maxBytes then Fail(SizeOutOfRange(name, sizeBytes, maxBytes))
      else ClassifyMedia(name, mime, b64, sniff)
  }

  /** Pick the effective type and keep the payload as an image or audio block, or drop it. */
  function ClassifyMedia(name: string, mime: string, b64: string, sniff: string -> Option<string>): (r: Outcome<MediaBlock>)
    ensures !r.Fail?
    ensures var e := EffectiveMime(NormalizeMime(sniff(b64)), NormalizeMime(Some(mime)), mime);
      && (r.Keep? <==> IsImageMime(Some(e)) || IsAudioMime(Some(e)))
      && (r.Keep? ==> r.item.data == b64 && r.item.mimeType == e)
  {
    var providedMime := NormalizeMime(Some(mime));
    var sniffedMime := NormalizeMime(sniff(b64));
    var effectiveMime := EffectiveMime(sniffedMime, providedMime, mime);
    var isValidMedia := IsImageMime(Some(effectiveMime)) || IsAudioMime(Some(effectiveMime));
    if !isValidMedia then
      Skip(if sniffedMime.Some? then NonMediaDetected(name, sniffedMime.value) else NoMediaType(name))
    else
      Keep(MediaBlock(if IsAudioMime(Some(effectiveMime)) then Audio else Image, effectiveMime, b64))
  }

  /** A list entry: a null entry is passed over. */
  function ParseEntry(
    idx: nat, entry: Option<Attachment>, maxBytes: int,
    estimate: string -> int, sniff: string -> Option<string>): (r: Outcome<MediaBlock>)
    ensures entry.None? ==> r == Skip(AbsentEntry)
  {
    match entry
    case None => Skip(AbsentEntry)
    case Some(att) => ParseStep(idx, att, maxBytes, estimate, sniff)
  }

  function ParseOutcomes(
    atts: seq<Option<Attachment>>, maxBytes: int,
    estimate: string -> int, sniff: string -> Option<string>): (r: seq<Outcome<MediaBlock>>)
    ensures |r| == |atts|
  {
    seq(|atts|, i requires 0 <= i < |atts| => ParseEntry(i, atts[i], maxBytes, estimate, sniff))
  }

  /** `opts?.maxBytes ?? 5_000_000`. */
  function Limit(maxBytesOption: Option<int>): (r: int)
    ensures maxBytesOption.Some? ==> r == maxBytesOption.value
    ensures maxBytesOption.None? ==> r == DefaultMaxBytes
  {
    maxBytesOption.GetOr(DefaultMaxBytes)
  }

  /** The result of `parseMessageWithAttachments`, or the error it throws. */
  function Parse(
    message: string, attachments: Option<seq<Option<Attachment>>>, maxBytesOption: Option<int>,
    estimate: string -> int, sniff: string -> Option<string>): (r: Result<ParsedMessage, AttachmentError>)
    ensures r.Success? ==> r.value.message == message
    ensures attachments.None? || attachments.value == [] ==> r == Success(ParsedMessage(message, []))
    ensures r.Success? && attachments.Some? ==> |r.value.images| <= |attachments.value|
  {
    var maxBytes := Limit(maxBytesOption);
    if attachments.None? || |attachments.value| == 0 then Success(ParsedMessage(message, []))
    else
      match Collect(ParseOutcomes(attachments.value, maxBytes, estimate, sniff))
      case Failure(e) => Failure(e)
      case Success(images) => Success(ParsedMessage(message, images))
  }

  /**
   * The loop of parseMessageWithAttachments: each present attachment is
   * checked in order; a fatal check returns at once, a non-media type moves
   * on to the next entry, and a kept attachment is appended to `images`.
   */
  method ParseMessageWithAttachments(
    message: string, attachments: Option<seq<Option<Attachment>>>, maxBytesOption: Option<int>,
    estimate: string -> int, sniff: string -> Option<string>)
    returns (r: Result<ParsedMessage, AttachmentError>)
    ensures r == Parse(message, attachments, maxBytesOption, estimate, sniff)
  {
    var maxBytes := Limit(maxBytesOption);
    if attachments.None? || |attachments.value| == 0 {
      return Success(ParsedMessage(message, []));
    }
    var atts := attachments.value;
    ghost var outcomes := ParseOutcomes(atts, maxBytes, estimate, sniff);
    var images: seq<MediaBlock> := [];
    for idx := 0 to |atts|
      invariant Collect(outcomes[..idx]) == Success(images)
    {
      if atts[idx].None? {
        CollectSkipsOne(outcomes, idx);
        continue;
      }
      var att := atts[idx].value;
      assert outcomes[idx] == ParseStep(idx, att, maxBytes, estimate, sniff);
      var mime := att.mimeType.GetOr("");
      var name := Label(idx, att);
      if att.content.NonString? {
        CollectFailsAt(outcomes, idx);
        ParseFailsWith(message, atts, maxBytesOption, estimate, sniff);
        return Failure(ContentNotString(name));
      }
      var b64 := Trim(att.content.text);
      b64 := StripDataUrl(b64);
      b64 := StripSpaces(b64);
      assert b64 == CleanBase64(att.content.text);
      ParseStepOfText(idx, att, maxBytes, estimate, sniff);
      if !IsValidBase64(b64) {
        CollectFailsAt(outcomes, idx);
        ParseFailsWith(message, atts, maxBytesOption, estimate, sniff);
        return Failure(InvalidBase64(name));
      }
      var sizeBytes := estimate(b64);
      if sizeBytes <= 0 || sizeBytes > maxBytes {
        CollectFailsAt(outcomes, idx);
        ParseFailsWith(message, atts, maxBytesOption, estimate, sniff);
        return Failure(SizeOutOfRange(name, sizeBytes, maxBytes));
      }
      var providedMime := NormalizeMime(Some(mime));
      var sniffedMime := NormalizeMime(sniff(b64));
      var effectiveMime := EffectiveMime(sniffedMime, providedMime, mime);
      var isValidMedia := IsImageMime(Some(effectiveMime)) || IsAudioMime(Some(effectiveMime));
      ParseStepClassifies(idx, att, maxBytes, estimate, sniff);
      assert outcomes[idx] == ClassifyMedia(name, mime, b64, sniff);
      assert outcomes[idx].Keep? <==> isValidMedia;
      if sniffedMime.Some? && !isValidMedia {
        CollectSkipsOne(outcomes, idx);
        continue;
      }
      if sniffedMime.None? && !isValidMedia {
        CollectSkipsOne(outcomes, idx);
        continue;
      }
      var block := MediaBlock(if IsAudioMime(Some(effectiveMime)) then Audio else Image, effectiveMime, b64);
      CollectKeepsOne(outcomes, idx, images);
      images := images + [block];
    }
    assert outcomes[..|atts|] == outcomes;
    ParseCollected(message, atts, maxBytesOption, estimate, sniff, images);
    return Success(ParsedMessage(message, images));
  }

  lemma ParseFailsWith(
    message: string, atts: seq<Option<Attachment>>, maxBytesOption: Option<int>,
    estimate: string -> int, sniff: string -> Option<string>)
    requires |atts| > 0 && Collect(ParseOutcomes(atts, Limit(maxBytesOption), estimate, sniff)).Failure?
    ensures Parse(message, Some(atts), maxBytesOption, estimate, sniff)
      == Failure(Collect(ParseOutcomes(atts, Limit(maxBytesOption), estimate, sniff)).error)
  {
  }

  lemma ParseCollected(
    message: string, atts: seq<Option<Attachment>>, maxBytesOption: Option<int>,
    estimate: string -> int, sniff: string -> Option<string>, images: seq<MediaBlock>)
    requires |atts| > 0 && Collect(ParseOutcomes(atts, Limit(maxBytesOption), estimate, sniff)) == Success(images)
    ensures Parse(message, Some(atts), maxBytesOption, estimate, sniff) == Success(ParsedMessage(message, images))
  {
  }

  // -------------------------------------------------------------------------
  // What an emitted block is
  // -------------------------------------------------------------------------

  /** The promises every emitted block keeps. */
  predicate WellFormedBlock(
    b: MediaBlock, maxBytes: int, estimate: string -> int, sniff: string -> Option<string>)
  {
    && NoSpace(b.data)
    && IsValidBase64(b.data)
    && !StartsWith(b.data, "data:")
    && 0 < estimate(b.data) <= maxBytes
    && (IsImageMime(Some(b.mimeType)) || IsAudioMime(Some(b.mimeType)))
    && (b.kind == Audio <==> IsAudioMime(Some(b.mimeType)))
    && IsNormalMime(b.mimeType)
    && (NormalizeMime(sniff(b.data)).Some? ==> b.mimeType == NormalizeMime(sniff(b.data)).value)
  }

  /**
   * A kept attachment had string content, its block carries that content
   * cleaned of prefix and whitespace, and the block is well formed. The
   * recorded type is always a normalised one: the raw declared type is only
   * used when it normalises to nothing, and then it is never a media type.
   */
  lemma KeptBlockWellFormed(
    idx: nat, att: Attachment, maxBytes: int,
    estimate: string -> int, sniff: string -> Option<string>)
    requires ParseStep(idx, att, maxBytes, estimate, sniff).Keep?
    ensures var b := ParseStep(idx, att, maxBytes, estimate, sniff).item;
      att.content.TextContent? && b.data == CleanBase64(att.content.text)
      && WellFormedBlock(b, maxBytes, estimate, sniff)
  {
    var b64 := CleanBase64(att.content.text);
    var mime := att.mimeType.GetOr("");
    var name := Label(idx, att);
    assert ParseStep(idx, att, maxBytes, estimate, sniff) == ClassifyMedia(name, mime, b64, sniff);
    ValidBase64IsNotDataUrl(b64);
    ClassifiedBlockWellFormed(name, mime, b64, sniff);
  }

  /** The type recorded for a kept payload is a normalised image or audio type, the sniffed one if any. */
  lemma ClassifiedBlockWellFormed(name: string, mime: string, b64: string, sniff: string -> Option<string>)
    requires ClassifyMedia(name, mime, b64, sniff).Keep?
    ensures var b := ClassifyMedia(name, mime, b64, sniff).item;
      && b.data == b64
      && (IsImageMime(Some(b.mimeType)) || IsAudioMime(Some(b.mimeType)))
      && (b.kind == Audio <==> IsAudioMime(Some(b.mimeType)))
      && IsNormalMime(b.mimeType)
      && (NormalizeMime(sniff(b64)).Some? ==> b.mimeType == NormalizeMime(sniff(b64)).value)
  {
    MediaPrefixSurvivesNormalization(mime);
  }

  /** A sniffed media type is recorded even when the declared type disagrees. */
  lemma SniffedTypeWins(
    idx: nat, att: Attachment, maxBytes: int,
    estimate: string -> int, sniff: string -> Option<string>, sniffed: string)
    requires att.content.TextContent?
    requires var b64 := CleanBase64(att.content.text);
      IsValidBase64(b64) && 0 < estimate(b64) <= maxBytes && NormalizeMime(sniff(b64)) == Some(sniffed)
    requires IsImageMime(Some(sniffed)) || IsAudioMime(Some(sniffed))
    ensures var b64 := CleanBase64(att.content.text);
      ParseStep(idx, att, maxBytes, estimate, sniff)
        == Keep(MediaBlock(if IsAudioMime(Some(sniffed)) then Audio else Image, sniffed, b64))
  {
  }

  /** A sniffed type that is neither image nor audio drops the attachment, whatever was declared. */
  lemma SniffedNonMediaDropped(
    idx: nat, att: Attachment, maxBytes: int,
    estimate: string -> int, sniff: string -> Option<string>, sniffed: string)
    requires att.content.TextContent?
    requires var b64 := CleanBase64(att.content.text);
      IsValidBase64(b64) && 0 < estimate(b64) <= maxBytes && NormalizeMime(sniff(b64)) == Some(sniffed)
    requires !IsImageMime(Some(sniffed)) && !IsAudioMime(Some(sniffed))
    ensures ParseStep(idx, att, maxBytes, estimate, sniff) == Skip(NonMediaDetected(Label(idx, att), sniffed))
  {
  }

  /** A base64 data URL is cleaned to the same payload as its bare, whitespace-free payload. */
  lemma DataUrlCleansLikeRaw(m: string, payload: string)
    requires m != [] && ';' !in m
    requires MatchDataUrl(Trim(payload)).None?
    ensures CleanBase64("data:" + m + ";base64," + payload) == CleanBase64(payload) == StripSpaces(payload)
  {
    var prefix := "data:" + m + ";base64,";
    assert prefix[0] == 'd' && prefix[|prefix| - 1] == ',';
    TrimAfterPrefix(prefix, payload);
    assert prefix + TrimEnd(payload) == "data:" + m + ";base64," + TrimEnd(payload);
    DataUrlMatchComplete(m, TrimEnd(payload));
    TrimEndKeepsNonSpace(payload);
    TrimKeepsNonSpace(payload);
  }

  // -------------------------------------------------------------------------
  // The whole call
  // -------------------------------------------------------------------------

  /** An entry whose checks abort the call. */
  predicate Rejects(
    idx: nat, entry: Option<Attachment>, maxBytes: int,
    estimate: string -> int, sniff: string -> Option<string>)
  {
    ParseEntry(idx, entry, maxBytes, estimate, sniff).Fail?
  }

  /** The payload checks fail exactly on invalid base64 or an out-of-range estimate. */
  lemma CheckPayloadFailsIff(
    name: string, mime: string, b64: string, maxBytes: int,
    estimate: string -> int, sniff: string -> Option<string>)
    ensures CheckPayload(name, mime, b64, maxBytes, estimate, sniff).Fail? <==> PayloadRejected(b64, maxBytes, estimate)
  {
  }

  /**
   * Which attachments abort the call: content that is not a string, or a
   * cleaned payload that is not valid base64 or whose estimate is out of
   * range. The media classification never aborts it.
   */
  lemma ParseRejectsIff(
    idx: nat, att: Attachment, maxBytes: int,
    estimate: string -> int, sniff: string -> Option<string>)
    ensures Rejects(idx, Some(att), maxBytes, estimate, sniff) <==>
      (att.content.NonString? || PayloadRejected(CleanBase64(att.content.text), maxBytes, estimate))
  {
    if att.content.TextContent? {
      ParseStepOfText(idx, att, maxBytes, estimate, sniff);
      CheckPayloadFailsIff(Label(idx, att), att.mimeType.GetOr(""), CleanBase64(att.content.text), maxBytes, estimate, sniff);
    }
  }

  /** A present attachment whose content is not a string fails the call, wherever it is. */
  lemma ParseRejectsNonString(
    message: string, atts: seq<Option<Attachment>>, maxBytesOption: Option<int>,
    estimate: string -> int, sniff: string -> Option<string>, i: nat)
    requires i < |atts| && atts[i].Some? && atts[i].value.content.NonString?
    ensures Parse(message, Some(atts), maxBytesOption, estimate, sniff).Failure?
  {
    assert Rejects(i, atts[i], Limit(maxBytesOption), estimate, sniff);
    ParseFailsIff(message, atts, maxBytesOption, estimate, sniff);
  }

  /** A present attachment whose cleaned payload fails the base64 or size checks fails the call. */
  lemma ParseRejectsBadPayload(
    message: string, atts: seq<Option<Attachment>>, maxBytesOption: Option<int>,
    estimate: string -> int, sniff: string -> Option<string>, i: nat)
    requires i < |atts| && atts[i].Some? && atts[i].value.content.TextContent?
    requires PayloadRejected(CleanBase64(atts[i].value.content.text), Limit(maxBytesOption), estimate)
    ensures Parse(message, Some(atts), maxBytesOption, estimate, sniff).Failure?
  {
    ParseRejectsIff(i, atts[i].value, Limit(maxBytesOption), estimate, sniff);
    ParseFailsIff(message, atts, maxBytesOption, estimate, sniff);
  }

  /** The call fails exactly when some present attachment fails its checks; skipped ones never do. */
  lemma ParseFailsIff(
    message: string, atts: seq<Option<Attachment>>, maxBytesOption: Option<int>,
    estimate: string -> int, sniff: string -> Option<string>)
    ensures Parse(message, Some(atts), maxBytesOption, estimate, sniff).Failure?
      <==> exists i :: 0 <= i < |atts| && Rejects(i, atts[i], Limit(maxBytesOption), estimate, sniff)
  {
    var outcomes := ParseOutcomes(atts, Limit(maxBytesOption), estimate, sniff);
    CollectFailsIff(outcomes);
    assert forall i :: 0 <= i < |atts| ==>
      outcomes[i] == ParseEntry(i, atts[i], Limit(maxBytesOption), estimate, sniff);
  }

  /** Fail-fast: the first failing attachment's error is thrown, whatever comes after it. */
  lemma ParseFirstFailure(
    message: string, atts: seq<Option<Attachment>>, maxBytesOption: Option<int>,
    estimate: string -> int, sniff: string -> Option<string>, i: nat)
    requires i < |atts| && Rejects(i, atts[i], Limit(maxBytesOption), estimate, sniff)
    requires forall j :: 0 <= j < i ==> !Rejects(j, atts[j], Limit(maxBytesOption), estimate, sniff)
    ensures Parse(message, Some(atts), maxBytesOption, estimate, sniff)
      == Failure(ParseEntry(i, atts[i], Limit(maxBytesOption), estimate, sniff).error)
  {
    var outcomes := ParseOutcomes(atts, Limit(maxBytesOption), estimate, sniff);
    CollectFirstFailure(outcomes, i);
  }

  /**
   * The blocks are the kept attachments, in input order: `kept` lists the
   * positions of exactly the present attachments whose checks keep them.
   */
  lemma ParseKeepsInOrder(
    message: string, atts: seq<Option<Attachment>>, maxBytesOption: Option<int>,
    estimate: string -> int, sniff: string -> Option<string>)
    requires Parse(message, Some(atts), maxBytesOption, estimate, sniff).Success?
    ensures var images := Parse(message, Some(atts), maxBytesOption, estimate, sniff).value.images;
      var maxBytes := Limit(maxBytesOption);
      var kept := KeptIndices(ParseOutcomes(atts, maxBytes, estimate, sniff));
      && |images| == |kept|
      && (forall j, k :: 0 <= j < k < |kept| ==> kept[j] < kept[k])
      && (forall j :: 0 <= j < |kept| ==>
            kept[j] < |atts| && atts[kept[j]].Some?
            && ParseStep(kept[j], atts[kept[j]].value, maxBytes, estimate, sniff) == Keep(images[j]))
      && (forall i :: (0 <= i < |atts| && atts[i].Some?
            && ParseStep(i, atts[i].value, maxBytes, estimate, sniff).Keep?) ==> i in kept)
  {
    var outcomes := ParseOutcomes(atts, Limit(maxBytesOption), estimate, sniff);
    if |atts| > 0 {
      CollectKeepsInOrder(outcomes);
    }
  }

  /**
   * Every block of a successful call is well formed and carries the cleaned
   * content of the attachment it came from.
   */
  lemma ParsedBlocksWellFormed(
    message: string, atts: seq<Option<Attachment>>, maxBytesOption: Option<int>,
    estimate: string -> int, sniff: string -> Option<string>)
    requires Parse(message, Some(atts), maxBytesOption, estimate, sniff).Success?
    ensures var images := Parse(message, Some(atts), maxBytesOption, estimate, sniff).value.images;
      var maxBytes := Limit(maxBytesOption);
      var kept := KeptIndices(ParseOutcomes(atts, maxBytes, estimate, sniff));
      |images| == |kept| && forall j :: 0 <= j < |images| ==>
        WellFormedBlock(images[j], maxBytes, estimate, sniff)
        && atts[kept[j]].Some? && atts[kept[j]].value.content.TextContent?
        && images[j].data == CleanBase64(atts[kept[j]].value.content.text)
  {
    var images := Parse(message, Some(atts), maxBytesOption, estimate, sniff).value.images;
    var maxBytes := Limit(maxBytesOption);
    var kept := KeptIndices(ParseOutcomes(atts, maxBytes, estimate, sniff));
    ParseKeepsInOrder(message, atts, maxBytesOption, estimate, sniff);
    forall j | 0 <= j < |images|
      ensures WellFormedBlock(images[j], maxBytes, estimate, sniff)
        && atts[kept[j]].Some? && atts[kept[j]].value.content.TextContent?
        && images[j].data == CleanBase64(atts[kept[j]].value.content.text)
    {
      KeptBlockWellFormed(kept[j], atts[kept[j]].value, maxBytes, estimate, sniff);
    }
  }

  /** When every attachment is present and kept, there is one block per attachment. */
  lemma ParseKeepsAll(
    message: string, atts: seq<Option<Attachment>>, maxBytesOption: Option<int>,
    estimate: string -> int, sniff: string -> Option<string>)
    requires forall i :: 0 <= i < |atts| ==>
      atts[i].Some? && ParseStep(i, atts[i].value, Limit(maxBytesOption), estimate, sniff).Keep?
    ensures var r := Parse(message, Some(atts), maxBytesOption, estimate, sniff);
      r.Success? && |r.value.images| == |atts|
  {
    var outcomes := ParseOutcomes(atts, Limit(maxBytesOption), estimate, sniff);
    forall i | 0 <= i < |outcomes|
      ensures outcomes[i].Keep?
    {
      assert outcomes[i] == ParseStep(i, atts[i].value, Limit(maxBytesOption), estimate, sniff);
    }
    CollectAllKept(outcomes);
  }

  /**
   * An attachment with a valid, small enough image payload and a declared
   * image type is kept, unless the sniffer recognises a non-media type.
   */
  lemma ValidImageKept(
    idx: nat, att: Attachment, maxBytes: int,
    estimate: string -> int, sniff: string -> Option<string>)
    requires att.content.TextContent?
    requires var b64 := CleanBase64(att.content.text);
      IsValidBase64(b64) && 0 < estimate(b64) <= maxBytes
      && (NormalizeMime(sniff(b64)).None? || IsImageMime(NormalizeMime(sniff(b64))) || IsAudioMime(NormalizeMime(sniff(b64))))
    requires IsImageMime(att.mimeType)
    ensures ParseStep(idx, att, maxBytes, estimate, sniff).Keep?
  {
    var b64 := CleanBase64(att.content.text);
    var mime := att.mimeType.value;
    var name := Label(idx, att);
    ParseStepOfText(idx, att, maxBytes, estimate, sniff);
    ClassifyKeepsDeclaredMedia(name, mime, b64, sniff);
  }

  /** An oversized (or empty-estimate) payload fails with its estimate and the ceiling. */
  lemma OversizedRejected(
    idx: nat, att: Attachment, maxBytes: int,
    estimate: string -> int, sniff: string -> Option<string>)
    requires att.content.TextContent?
    requires var b64 := CleanBase64(att.content.text);
      IsValidBase64(b64) && (estimate(b64) <= 0 || estimate(b64) > maxBytes)
    ensures ParseStep(idx, att, maxBytes, estimate, sniff)
      == Fail(SizeOutOfRange(Label(idx, att), estimate(CleanBase64(att.content.text)), maxBytes))
  {
    ParseStepOfText(idx, att, maxBytes, estimate, sniff);
  }

  lemma ParseStepOfText(
    idx: nat, att: Attachment, maxBytes: int,
    estimate: string -> int, sniff: string -> Option<string>)
    requires att.content.TextContent?
    ensures ParseStep(idx, att, maxBytes, estimate, sniff)
      == CheckPayload(Label(idx, att), att.mimeType.GetOr(""), CleanBase64(att.content.text), maxBytes, estimate, sniff)
  {
  }

  lemma ParseStepClassifies(
    idx: nat, att: Attachment, maxBytes: int,
    estimate: string -> int, sniff: string -> Option<string>)
    requires att.content.TextContent?
    requires var b64 := CleanBase64(att.content.text);
      IsValidBase64(b64) && 0 < estimate(b64) <= maxBytes
    ensures ParseStep(idx, att, maxBytes, estimate, sniff)
      == ClassifyMedia(Label(idx, att), att.mimeType.GetOr(""), CleanBase64(att.content.text), sniff)
  {
    ParseStepOfText(idx, att, maxBytes, estimate, sniff);
  }

  lemma ClassifyKeepsDeclaredMedia(name: string, mime: string, b64: string, sniff: string -> Option<string>)
    requires IsImageMime(Some(mime))
    requires var sniffed := NormalizeMime(sniff(b64));
      sniffed.None? || IsImageMime(sniffed) || IsAudioMime(sniffed)
    ensures ClassifyMedia(name, mime, b64, sniff).Keep?
  {
    MediaPrefixSurvivesNormalization(mime);
    var provided := NormalizeMime(Some(mime));
    assert provided.Some? && IsImageMime(provided);
  }
}
