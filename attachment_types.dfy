/** The data model of chat-attachments.ts: descriptors in, media blocks out. */
module AttachmentTypes {
  import opened Wrappers
  import opened Strings

  /** `content: unknown`: either a string or some other JavaScript value. */
  datatype Content = TextContent(text: string) | NonString

  /**
   * `ChatAttachment`. `kind` is the descriptor's free-form `type` field; every
   * field is optional. A null entry in the list is `None` in `seq<Option<Attachment>>`.
   */
  datatype Attachment = Attachment(
    kind: Option<string>,
    mimeType: Option<string>,
    fileName: Option<string>,
    content: Content)

  /** The `type` of a content block. */
  datatype MediaKind = Image | Audio

  /** `ChatImageContent` as this code builds it: `mediaType` is never set. */
  datatype MediaBlock = MediaBlock(kind: MediaKind, mimeType: string, data: string)

  /** `ParsedMessageWithImages`. */
  datatype ParsedMessage = ParsedMessage(message: string, images: seq<MediaBlock>)

  /** The errors that abort a whole call; each names the attachment's label. */
  datatype AttachmentError =
    | ContentNotString(name: string)
    | InvalidBase64(name: string)
    | SizeOutOfRange(name: string, sizeBytes: int, maxBytes: int)
    | NotAnImage(name: string)

  /** Why an entry was passed over without failing the call. */
  datatype SkipReason =
    | AbsentEntry
    | NonMediaDetected(name: string, sniffed: string)
    | NoMediaType(name: string)

  /** What one entry of the list contributes: an item, nothing, or a fatal error. */
  datatype Outcome<B> = Keep(item: B) | Skip(reason: SkipReason) | Fail(error: AttachmentError)

  /** `fileName || type || attachment-${idx + 1}`: empty strings count as missing. */
  function Label(idx: nat, att: Attachment): (r: string)
    ensures r != []
  {
    if att.fileName.Some? && att.fileName.value != "" then att.fileName.value
    else if att.kind.Some? && att.kind.value != "" then att.kind.value
    else "attachment-" + DecimalString(idx + 1)
  }

  /** An attachment without a file name or type is labelled by its 1-based position. */
  lemma LabelNamesPosition(idx: nat, att: Attachment)
    requires att.fileName.None? || att.fileName.value == ""
    requires att.kind.None? || att.kind.value == ""
    ensures var r := Label(idx, att);
      StartsWith(r, "attachment-") && AllDigits(r[11..]) && DecimalValue(r[11..]) == idx + 1
  {
    var r := Label(idx, att);
    assert r[11..] == DecimalString(idx + 1);
    DecimalRoundTrip(idx + 1);
  }
}
