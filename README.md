# Chat attachments, modelled in Dafny

This project models the attachment handling of the chat gateway
(`app_openclaw/src/gateway/chat-attachments.ts`). It has two entry points.

- `parseMessageWithAttachments` turns a message and its attachment
  descriptors into structured image and audio content blocks. It:
  - passes over null entries;
  - fails the whole call on the first attachment whose content is not a
    string, whose base64 is malformed, or whose estimated decoded size is
    out of range;
  - reconciles the declared MIME type with a sniffed one;
  - drops attachments whose effective type is neither image nor audio.
- `buildMessageWithAttachments` is the deprecated sibling. It inlines accepted
  images into the message as markdown links with base64 data URLs.

The helpers `normalizeMime`, `isImageMime` and `isValidBase64` are modelled
too. So are the JavaScript string built-ins they rely on: `trim`,
`replace(/\s/g, "")`, `replace(/\s+/g, "_")`, `split(";")[0]`,
`toLowerCase`, `startsWith` and `join`. The data-URL regular expression is
modelled as well.

Modules, following the source:

- `Wrappers`: `Option` and `Result`.
- `Strings`: the string built-ins. `\s` and `trim` use the exact set of
  JavaScript whitespace code points.
- `Mime`: `normalizeMime`, `isImageMime` and the inline `isAudio` test.
- `Base64`: `isValidBase64`.
- `DataUrl`: the `data:<type>;base64,<payload>` match.
- `AttachmentTypes`: the descriptor, block and error types, and the label rule.
- `Walk`: the loop shape both entry points share. Entries are visited in
  order; the first fatal error ends the call; skipped entries add nothing;
  kept entries are collected. `Collect` is the specification function over
  per-entry outcomes.
- `ParseAttachments` and `BuildAttachments`: the two entry points.

Each entry point is a `method` with the source's `for` loop, `continue` and
early `return`. Each is proved equal to a specification function (`Parse`,
`Build`), and the properties are proved about those functions.

The external estimator `estimateBase64DecodedBytes` and the sniffer
`sniffMimeFromBase64` are parameters `estimate: string -> int` and
`sniff: string -> Option<string>`. Their bodies are not part of this model.
A thrown `Error` is a `Failure` carrying an `AttachmentError`. That error
names the label, and for size errors it also carries the estimate and the
ceiling.

Details of the code that the model keeps:

- `normalizeMime` also trims, and an empty declared type counts as absent.
- The legacy embedder also rejects a size estimate of 0 or less, not only one
  above the ceiling.
- The legacy embedder checks and estimates the trimmed content, but embeds the
  untrimmed content in the link.
- The legacy embedder compares the raw declared type against `image/`, with
  no normalisation. So `IMAGE/PNG` is rejected there: `BuildRejectsNonImage`.

## Model

| member | source | states |
|---|---|---|
| Strings.IsSpace | app_openclaw/src/gateway/chat-attachments.ts:48 | the code points JavaScript's `\s` matches, which are also the ones `trim` removes |
| Strings.StartsWith | app_openclaw/src/gateway/chat-attachments.ts:43 | `startsWith`: the prefix is no longer than the string and equals its first characters |
| Strings.TrimStart | app_openclaw/src/gateway/chat-attachments.ts:86 | the result is the suffix of the input left after its leading whitespace, and it starts with a non-space or is empty |
| Strings.TrimEnd | app_openclaw/src/gateway/chat-attachments.ts:86 | the result is the prefix of the input before its trailing whitespace, and it ends with a non-space or is empty |
| Strings.Trim | app_openclaw/src/gateway/chat-attachments.ts:38 | `trim` never lengthens the string and leaves no whitespace at either end |
| Strings.TrimKeepsNonSpace | app_openclaw/src/gateway/chat-attachments.ts:86 | `trim` removes whitespace only: the non-space characters are unchanged and stay in order |
| Strings.TrimOnlyEnds | app_openclaw/src/gateway/chat-attachments.ts:172-176 | `trim` removes a whitespace run from each end and nothing else: the result is a contiguous slice of the input with only whitespace before and after it, so interior whitespace reaches the estimate unchanged |
| Strings.TrimSubset | app_openclaw/src/gateway/chat-attachments.ts:38 | every character of the trimmed string occurs in the input |
| Strings.StripSpaces | app_openclaw/src/gateway/chat-attachments.ts:48 | `replace(/\s/g, "")` leaves no whitespace and never lengthens the string |
| Strings.StripSpacesIdempotent | app_openclaw/src/gateway/chat-attachments.ts:94 | stripping whitespace a second time changes nothing |
| Strings.StripSpacesIgnoresInsertedSpace | app_openclaw/src/gateway/chat-attachments.ts:48 | inserting one whitespace character anywhere does not change the stripped string |
| Strings.ToLowerAscii | app_openclaw/src/gateway/chat-attachments.ts:38 | lower-casing keeps the length and leaves no upper-case letter; each ASCII capital becomes the letter 32 code points above it, and every other character is unchanged |
| Strings.BeforeFirst | app_openclaw/src/gateway/chat-attachments.ts:38 | `split(";")[0]` is the longest prefix without `;`, and the input continues with `;` if it is longer |
| Strings.ReplaceSpaceRuns | app_openclaw/src/gateway/chat-attachments.ts:181 | the safe label is never longer than the label |
| Strings.ReplaceSpaceRunsHasNoSpace | app_openclaw/src/gateway/chat-attachments.ts:181 | the safe label contains no whitespace |
| Strings.ReplaceSpaceRunsOfNoSpace | app_openclaw/src/gateway/chat-attachments.ts:181 | a label without whitespace is left exactly as it is |
| Strings.ReplaceSpaceRunsSplits | app_openclaw/src/gateway/chat-attachments.ts:181 | a maximal whitespace run between two parts becomes exactly one `_`, and each part is rewritten on its own |
| Strings.Join | app_openclaw/src/gateway/chat-attachments.ts:190 | a non-empty join starts with the first element and ends with the last |
| Strings.JoinSingle | app_openclaw/src/gateway/chat-attachments.ts:190 | joining a single element gives that element, with no separator |
| Strings.JoinConcat | app_openclaw/src/gateway/chat-attachments.ts:190 | joining two non-empty lists back to back is joining each and putting exactly one separator between them, so every element appears in order with one separator between neighbours |
| Strings.DecimalString | app_openclaw/src/gateway/chat-attachments.ts:79 | the decimal rendering of a number is non-empty, all digits, and has no leading zero unless the number is 0 |
| Strings.DecimalRoundTrip | app_openclaw/src/gateway/chat-attachments.ts:79 | reading the decimal rendering back gives the number |
| Mime.NormalizeMime | app_openclaw/src/gateway/chat-attachments.ts:34-40 | any value returned is non-empty, trimmed, lower-case and free of `;` |
| Mime.NormalMimeIsFixedPoint | app_openclaw/src/gateway/chat-attachments.ts:34-40 | a string is in normal form if and only if `normalizeMime` returns it unchanged |
| Mime.NormalizeMimeIdempotent | app_openclaw/src/gateway/chat-attachments.ts:34-40 | normalising twice gives the same result as normalising once |
| Mime.IsImageMime | app_openclaw/src/gateway/chat-attachments.ts:42-44 | a string type starting with `image/`; such a type is never also an audio type |
| Mime.IsAudioMime | app_openclaw/src/gateway/chat-attachments.ts:109 | the truthiness test adds nothing: a type is audio exactly when it is a string starting with `audio/` |
| Mime.MediaPrefixSurvivesNormalization | app_openclaw/src/gateway/chat-attachments.ts:104-112 | a type starting with `image/` or `audio/` still does after normalisation, so normalising never loses a media type |
| Base64.IsValidBase64 | app_openclaw/src/gateway/chat-attachments.ts:46-53 | a payload that passes has at least four non-space characters (its exact meaning is `ValidBase64Iff`) |
| Base64.MatchesBase64Pattern | app_openclaw/src/gateway/chat-attachments.ts:51 | `/^[A-Za-z0-9+/]+={0,2}$/.test`, decided by counting the trailing `=` (its exact reading is `PatternMeansPaddedBody`) |
| Base64.PatternMeansPaddedBody | app_openclaw/src/gateway/chat-attachments.ts:51 | the pattern test holds exactly when the string is one or more alphabet characters followed by zero, one or two `=`, in both directions |
| Base64.TrailingPadCount | app_openclaw/src/gateway/chat-attachments.ts:51 | the count is the length of the maximal run of `=` at the end |
| Base64.ValidBase64Iff | app_openclaw/src/gateway/chat-attachments.ts:46-53 | valid exactly when the whitespace-free string is non-empty, has a length divisible by 4, and is one or more alphabet characters followed by zero to two `=`, in both directions |
| Base64.ValidBase64IgnoresInsertedSpace | app_openclaw/src/gateway/chat-attachments.ts:47-48 | inserting whitespace anywhere does not change the verdict |
| Base64.ValidBase64OfStripped | app_openclaw/src/gateway/chat-attachments.ts:94-96 | stripping whitespace before the check does not change the verdict |
| Base64.ValidBase64Alphabet | app_openclaw/src/gateway/chat-attachments.ts:51 | a whitespace-free string that passes holds only alphabet characters and `=` |
| Base64.ValidBase64IsNotDataUrl | app_openclaw/src/gateway/chat-attachments.ts:88-96 | a payload that passes contains no `:`, so it cannot still start with `data:` |
| DataUrl.MatchDataUrl | app_openclaw/src/gateway/chat-attachments.ts:88-91 | a match needs the `data:` prefix and at least 14 characters, and the capture is a suffix of the input |
| DataUrl.StripDataUrl | app_openclaw/src/gateway/chat-attachments.ts:89-91 | the result is a suffix of the input, and the input itself when there is no match |
| DataUrl.DataUrlMatchComplete | app_openclaw/src/gateway/chat-attachments.ts:88-91 | every `data:<type>;base64,<payload>` with a non-empty `;`-free type matches, and the capture is the payload |
| DataUrl.DataUrlMatchSound | app_openclaw/src/gateway/chat-attachments.ts:88-91 | whatever matches is `data:`, a non-empty `;`-free type, `;base64,`, then the capture |
| AttachmentTypes.Label | app_openclaw/src/gateway/chat-attachments.ts:79 | the label is never empty |
| AttachmentTypes.LabelNamesPosition | app_openclaw/src/gateway/chat-attachments.ts:79 | without a file name or type, the label is `attachment-` followed by the 1-based position in decimal |
| Walk.Collect | app_openclaw/src/gateway/chat-attachments.ts:73-135 | the loop never collects more items than there are entries |
| Walk.KeptIndices | app_openclaw/src/gateway/chat-attachments.ts:73-135 | the positions of exactly the kept entries, strictly increasing |
| Walk.CollectFailsIff | app_openclaw/src/gateway/chat-attachments.ts:81-102 | the loop fails exactly when some entry is fatal |
| Walk.CollectFirstFailure | app_openclaw/src/gateway/chat-attachments.ts:81-102 | the error reported is the first fatal entry's |
| Walk.CollectStopsAtFailure | app_openclaw/src/gateway/chat-attachments.ts:81-102 | once a prefix has failed, later entries do not change the outcome |
| Walk.CollectKeepsInOrder | app_openclaw/src/gateway/chat-attachments.ts:130-134 | the collected items are the kept entries' items, one each, in input order |
| Walk.CollectAllKept | app_openclaw/src/gateway/chat-attachments.ts:130-134 | when every entry is kept the loop succeeds with one item per entry |
| Walk.CollectAllSkipped | app_openclaw/src/gateway/chat-attachments.ts:156-159 | when every entry is skipped the loop succeeds with no items |
| ParseAttachments.Limit | app_openclaw/src/gateway/chat-attachments.ts:65 | the ceiling is the caller's `maxBytes` when given, and 5,000,000 otherwise |
| ParseAttachments.ParseEntry | app_openclaw/src/gateway/chat-attachments.ts:74-76 | a null entry is passed over with no block and no error |
| ParseAttachments.Parse | app_openclaw/src/gateway/chat-attachments.ts:60-138 | a successful call returns the message unchanged; no or empty attachments give the message and no blocks; there are never more blocks than attachments |
| ParseAttachments.ParseMessageWithAttachments | app_openclaw/src/gateway/chat-attachments.ts:60-138 | the loop with `continue` and early throw computes exactly `Parse` |
| ParseAttachments.CleanBase64 | app_openclaw/src/gateway/chat-attachments.ts:86-94 | the cleaned payload has no whitespace and is never longer than the content |
| ParseAttachments.EffectiveMime | app_openclaw/src/gateway/chat-attachments.ts:104-112 | when the sniffed type is normalised and the provided type is the normalised raw one, an effective type that is image or audio is always in normal form: the raw fallback of `?? mime` is only reached when normalising it gave nothing, and then it is not a media type |
| ParseAttachments.ParseStep | app_openclaw/src/gateway/chat-attachments.ts:77-83 | content that is not a string fails with `ContentNotString` and the label |
| ParseAttachments.CheckPayload | app_openclaw/src/gateway/chat-attachments.ts:96-103 | invalid base64 fails with `InvalidBase64` and the label; a valid payload with an estimate of 0 or less or above the ceiling fails with `SizeOutOfRange` carrying the label, the estimate and the ceiling; a payload that passes both goes on to the media classification |
| ParseAttachments.ClassifyMedia | app_openclaw/src/gateway/chat-attachments.ts:104-134 | the classification never fails the call; it keeps the payload exactly when the effective type is image or audio, and the block then records the payload and the effective type |
| ParseAttachments.CheckPayloadFailsIff | app_openclaw/src/gateway/chat-attachments.ts:96-102 | the payload checks fail exactly on invalid base64 or an estimate of 0 or less or above the ceiling |
| ParseAttachments.ParseRejectsIff | app_openclaw/src/gateway/chat-attachments.ts:77-134 | a present attachment aborts the call exactly when its content is not a string, or its cleaned payload is invalid base64, or its estimate is out of range |
| ParseAttachments.ParseRejectsNonString | app_openclaw/src/gateway/chat-attachments.ts:81-83 | a present attachment with non-string content fails the call, wherever it is in the list |
| ParseAttachments.ParseRejectsBadPayload | app_openclaw/src/gateway/chat-attachments.ts:96-102 | a present attachment whose cleaned payload fails the base64 or size checks fails the call |
| ParseAttachments.KeptBlockWellFormed | app_openclaw/src/gateway/chat-attachments.ts:81-134 | a kept attachment had string content, and its block holds that content trimmed, without a data-URL prefix and without whitespace; the data is valid base64, not a data URL, and within the size range; the type is a normalised media type, the sniffed one when there is one, and the kind is audio exactly for `audio/` types |
| ParseAttachments.ClassifiedBlockWellFormed | app_openclaw/src/gateway/chat-attachments.ts:104-134 | the recorded type is a normalised image or audio type, the sniffed one when there is one, and the kind agrees with it |
| ParseAttachments.SniffedTypeWins | app_openclaw/src/gateway/chat-attachments.ts:111-134 | a sniffed media type is recorded whatever type was declared |
| ParseAttachments.SniffedNonMediaDropped | app_openclaw/src/gateway/chat-attachments.ts:114-117 | a sniffed non-media type drops the attachment, whatever type was declared |
| ParseAttachments.ClassifyKeepsDeclaredMedia | app_openclaw/src/gateway/chat-attachments.ts:104-121 | a declared image type with no sniffed type, or a sniffed media type, keeps the payload |
| ParseAttachments.ValidImageKept | app_openclaw/src/gateway/chat-attachments.ts:96-134 | valid base64 within the size range and a declared image type are kept, unless the sniffer reports a non-media type |
| ParseAttachments.OversizedRejected | app_openclaw/src/gateway/chat-attachments.ts:99-102 | an estimate of 0 or less, or above the ceiling, fails with the label, the estimate and the ceiling |
| ParseAttachments.DataUrlCleansLikeRaw | app_openclaw/src/gateway/chat-attachments.ts:86-94 | a base64 data URL is cleaned to the same payload as its bare payload |
| ParseAttachments.ParseFailsIff | app_openclaw/src/gateway/chat-attachments.ts:73-102 | the call fails exactly when some present attachment fails its checks; dropped ones never fail it |
| ParseAttachments.ParseFirstFailure | app_openclaw/src/gateway/chat-attachments.ts:81-102 | the first failing attachment's error is the one thrown |
| ParseAttachments.ParseKeepsInOrder | app_openclaw/src/gateway/chat-attachments.ts:73-135 | the blocks are one per kept attachment, in input order, and every kept attachment is among them |
| ParseAttachments.ParsedBlocksWellFormed | app_openclaw/src/gateway/chat-attachments.ts:73-137 | every block of a successful call is well formed and holds its attachment's cleaned content |
| ParseAttachments.ParseKeepsAll | app_openclaw/src/gateway/chat-attachments.ts:71-137 | when every attachment passes, there is one block per attachment |
| BuildAttachments.Limit | app_openclaw/src/gateway/chat-attachments.ts:149 | the ceiling is the caller's `maxBytes` when given, and 2,000,000 otherwise |
| BuildAttachments.BuildEntry | app_openclaw/src/gateway/chat-attachments.ts:157-159 | an entry is passed over exactly when it is null; every present one is kept or fails |
| BuildAttachments.Build | app_openclaw/src/gateway/chat-attachments.ts:144-191 | a successful call's string starts with the message |
| BuildAttachments.BuildMessageWithAttachments | app_openclaw/src/gateway/chat-attachments.ts:144-191 | the loop with `continue` and early throw computes exactly `Build` |
| BuildAttachments.MarkdownImage | app_openclaw/src/gateway/chat-attachments.ts:182 | the link starts with `![`, ends with `)`, and embeds the content just before the closing parenthesis |
| BuildAttachments.BuildStep | app_openclaw/src/gateway/chat-attachments.ts:160-183 | a present attachment is never silently dropped; an accepted one had string content and its link is `![label with whitespace runs as _](data:<declared type>;base64,<untrimmed content>)`; each failed check raises its own error: `ContentNotString`, `NotAnImage`, `InvalidBase64`, or `SizeOutOfRange` with the estimate of the trimmed content and the ceiling |
| BuildAttachments.Assemble | app_openclaw/src/gateway/chat-attachments.ts:186-190 | the output starts with the message, and is the message alone when there are no links |
| BuildAttachments.BuildRejectsIff | app_openclaw/src/gateway/chat-attachments.ts:160-179 | a present attachment aborts the call exactly when its content is not a string, or its raw type does not start with `image/`, or its trimmed payload is invalid base64 or has an out-of-range estimate |
| BuildAttachments.BuildFailsIff | app_openclaw/src/gateway/chat-attachments.ts:156-179 | the call fails exactly when some present attachment fails its checks |
| BuildAttachments.BuildRejectsNonImage | app_openclaw/src/gateway/chat-attachments.ts:167-169 | a present attachment whose raw declared type does not start with `image/` fails the call |
| BuildAttachments.BuildWithoutBlocks | app_openclaw/src/gateway/chat-attachments.ts:186-188 | with no present attachment the message comes back unchanged |
| BuildAttachments.BuildLinksInOrder | app_openclaw/src/gateway/chat-attachments.ts:156-184 | the collected links are those of the accepted attachments, in input order |
| BuildAttachments.BuildEmbedsInOrder | app_openclaw/src/gateway/chat-attachments.ts:156-190 | a success links every present attachment: it is the message, then a blank line unless the message is blank, then the links of all present attachments in input order separated by blank lines |
| BuildAttachments.BuildKeepsEveryPresent | app_openclaw/src/gateway/chat-attachments.ts:156-183 | in a successful call every present attachment is among the kept positions |
| BuildAttachments.BuildSingleImageAlone | app_openclaw/src/gateway/chat-attachments.ts:186-190 | one accepted image with an empty message gives exactly that image's link, with no leading blank line |

## Left out

- Logger warnings (lines 115, 119, 123-125) are not modelled: they are output only. The reason an entry was dropped is kept in `Outcome.Skip`; the mime-mismatch warning leaves no trace.
- `async`/`await` is not modelled: there is one sequential await per attachment, so the entry point is a plain method and `sniff` a plain function.
- The bodies of `estimateBase64DecodedBytes` and `sniffMimeFromBase64` are not part of this model; they are parameters.
- Strings.ToLowerAscii: maps only ASCII letters, unlike JavaScript's full Unicode `toLowerCase`.
- Strings are sequences of Dafny `char`, not UTF-16 code units. Lengths and `%4` are taken on that representation, which matches for the ASCII content base64 allows.
- `maxBytes` and the estimate are unbounded integers; JavaScript numbers (floating point, `NaN`) are not modelled.
- The optional `mediaType` field of `ChatImageContent` is never set by this code, so `MediaBlock` has no such field.
- Values other than those listed are not modelled: the descriptor's fields are `Option<string>` and `content` is a string or `NonString`. A non-string `fileName`, `type` or `mimeType` is out of scope.
