# AI notes maker backend — a Dafny model

The backend of the AI notes maker stores notes, folders, chat messages and
file attachments. It asks a generative model to edit a note, and it fetches
images from the web for a note. This project models the deterministic rules
of that backend and proves what they promise:

- **RouteRules** (`route_rules.dfy`):
  - `allowed_file`, and the filetype an uploaded attachment is stored with;
  - the `upload_file` PDF/image/mime rule;
  - the file name `cleanup_images` reads out of a downloaded-image URL.
- **Attachments** (`attachments.dfy`):
  - the attachment summary status machine (`pending`, `processing`, `complete`, `failed`, `cancelled`);
  - each route or worker step is a method of the `Attachment` class and is specified by the pure transition `Apply`;
  - the guarded regeneration worker, the unguarded upload worker and cancel are all covered.
- **FileSelection** (`file_selection.dfy`): the 1-based `file_numbers` loop of `chat_respond`.
- **ImageCleanup** (`image_cleanup.dfy`): the deletion loop of `cleanup_images`, over the set of files in the download folder.
- **Workspace** (`workspace.dfy`):
  - partial updates of notes and folders, and unlinking the notes of a deleted folder;
  - the rule that keeps `chat_respond` from saving a user message that `chat_decide` already saved;
  - a `Store` class holds the tables as maps and a list.
- **LatexFormat** (`latex_format.dfy`): `format_latex_for_tiptap`.
  - Its two regular-expression passes are written as left-to-right scanners.
  - Each pass is proved against a reference rendering of a text cut into plain runs and formulas.
- **ChatService** (`chat_service.dfy`): what `chat_with_ai` does with the model's output:
  - fence stripping before JSON parsing;
  - the search-context choice;
  - LaTeX formatting of the new note;
  - the "I searched for information." prefix;
  - the no-key and exception fallbacks.
- **ImageSearch** (`image_search.dfy`): `search_and_download_images`:
  - the safe file-name stem and the numbered file names;
  - the content-type to extension choice;
  - the download loop;
  - the three-attempt retry loop with exponential back-off.
- **Text** and **Wrappers** (`text.dfy`, `wrappers.dfy`): the Python string operations the rules rely on, written out, plus `Option`/`Result`.
  - The string operations are `find`, `in`, `lower`, `strip`, `replace(p, '')`, `rsplit`, `split(...)[-1]`, `os.path.splitext`, `str(n)` and `int(...)`.

The rest of the system appears as function-typed parameters. These are the
database, the HTTP layer, the Gemini and DuckDuckGo calls, `requests`,
`secure_filename`, `os.path.join`, `os.path.exists` and `json.loads`.

## Model

| member | source | states |
|---|---|---|
| RouteRules.AllowedFileIff | backend/routes.py:22-24 | `AllowedFile`: a name is allowed exactly when it is `stem.ext` with no dot in `ext` and `ext` lower-cased among png/jpg/jpeg/gif/pdf (both directions, against a reference definition) |
| RouteRules.AllowedFileIgnoresCase | backend/routes.py:22-24 | `x.PDF` is allowed: the extension is compared lower-cased |
| RouteRules.AllowedFileReadsLastExtension | backend/routes.py:22-24 | `x.pdf.exe` is refused: only the text after the last dot counts |
| RouteRules.AllowedFileNeedsDot | backend/routes.py:22-24 | `pdf` without a dot is refused |
| RouteRules.StoredFiletype | backend/routes.py:273-278 | the filetype as written, read from the stored name: no result exactly when the stored name has no dot (the `IndexError`), otherwise image for png/jpg/jpeg/gif and pdf for anything else |
| RouteRules.LeadingDotUploadHasNoFiletype | backend/routes.py:270-278 | `.png` passes `allowed_file`, but once sanitised to `png` its stored name has no dot, so reading the filetype fails |
| RouteRules.UploadFiletype | backend/routes.py:277-278 | the filetype of an accepted upload is image exactly for png/jpg/jpeg/gif and pdf exactly for pdf; no third value and no failure |
| RouteRules.StoredFiletypeAgrees | backend/routes.py:270-278 | whenever the stored name keeps the accepted extension, reading the filetype from it gives the same filetype as the accepted extension |
| RouteRules.StoredFiletypeOfPlainName | backend/routes.py:270-278 | for an ordinary sanitised name `stem.ext` the stored name keeps the extension, so reading the filetype back from it gives the accepted filetype |
| RouteRules.ImageSuffixExtension | backend/routes.py:642-647 | a name ending in one of the six image suffixes has one of their extensions after its last dot |
| RouteRules.UploadKindOf | backend/routes.py:626-660 | after lower-casing, the result is a PDF exactly for a `.pdf` suffix, and refused exactly when the name has neither `.pdf` nor an image suffix; an image carries the mime type of the lower-cased name's extension (`image/jpeg` for `jpg`, `image/<ext>` otherwise) |
| RouteRules.MimeOfImageExtension | backend/routes.py:647-650 | the mime type of each image extension is one of the five image types, with `jpg` spelt `jpeg` |
| RouteRules.UploadKindMimeTypes | backend/routes.py:642-650 | every image upload gets a mime type among image/jpeg, png, gif, webp and bmp |
| RouteRules.UploadKindOfUpperCaseJpg | backend/routes.py:626-650 | `Photo.JPG` is an image of type `image/jpeg` |
| RouteRules.UploadKindOfJpeg | backend/routes.py:642-650 | `scan.jpeg` is an image of type `image/jpeg` |
| RouteRules.UploadKindOfImageName | backend/routes.py:642-650 | any name whose lower-cased form has an image suffix and no `.pdf` suffix gets the mime type of the lower-cased extension |
| RouteRules.UploadKindOfVideo | backend/routes.py:659-660 | `clip.mp4` is refused |
| RouteRules.DownloadedImageName | backend/routes.py:237-238 | a URL yields a name exactly when it contains `/api/downloaded_images/` |
| RouteRules.DownloadedImageNameFollowsMarker | backend/routes.py:236-238 | the name is the end of the URL, right after an occurrence of the marker, and holds no marker itself |
| Attachments.FailureSummary | backend/routes.py:320-325 | the failure summary is the fixed prefix followed by the whole error when it has at most 100 characters, else by its first 100 |
| Attachments.ApplyKeepsConsistent | backend/routes.py:302-325 | `Apply`, the effect of one route or worker step on the status and summary, keeps them consistent: pending has none, complete has one, cancelled has the cancellation notice, failed has a failure notice |
| Attachments.RunKeepsConsistent | backend/routes.py:302-325 | `Run`, applying a sequence of route and worker steps, keeps that invariant |
| Attachments.RunConcat | backend/routes.py:302-325 | running two sequences of steps one after the other is running their concatenation |
| Attachments.CancelOnlyWhileRunning | backend/routes.py:469-472 | cancel sets `cancelled` with the fixed notice from `pending` or `processing`, and changes nothing from any other status |
| Attachments.CancelIdempotent | backend/routes.py:469-472 | cancelling twice is cancelling once |
| Attachments.GuardedStepsKeepFinished | backend/routes.py:413-426 | the regeneration worker's status-checked steps (start and finish) and cancel never rewrite a complete, failed or cancelled summary; the worker's failure path (backend/routes.py:427-436) is not one of them |
| Attachments.GuardedStepsNeverFail | backend/routes.py:413-426 | those status-checked steps and cancel never lead to `failed` |
| Attachments.CancelDuringRegeneration | backend/routes.py:392-426 | after a regeneration reset, a cancel amid the worker's status-checked steps leaves the summary cancelled, unless the worker had completed before the cancel; the worker's failure path (backend/routes.py:427-436) still overwrites a cancellation, see UploadWorkerOverridesCancel |
| Attachments.RegenerationCompletes | backend/routes.py:392-426 | reset, worker start and worker done end complete with the new summary |
| Attachments.RunThree | backend/routes.py:302-315 | running three steps applies them in order |
| Attachments.UploadWorkerOverridesCancel | backend/routes.py:302-325 | the upload worker does not look at the status: a cancelled fresh upload still completes; and a worker failure, which the regeneration worker's failure path also writes without a status check, overwrites a cancellation |
| Attachments.Attachment.constructor | backend/routes.py:281-287 | a new attachment is pending with no summary |
| Attachments.Attachment.StartUploadSummary | backend/routes.py:302-305 | the upload worker sets `processing` whatever the status was |
| Attachments.Attachment.FinishUploadSummary | backend/routes.py:311-315 | the upload worker stores the summary and sets `complete` whatever the status was |
| Attachments.Attachment.FailSummary | backend/routes.py:320-325 | a worker failure sets `failed` with the failure summary of the error, the step the summary state machine takes |
| Attachments.Attachment.RegenerateSummary | backend/routes.py:392-402 | regeneration resets to pending with no summary, then fails with "File not found" exactly when the file is missing; the worker starts exactly when it exists |
| Attachments.Attachment.StartRegeneratedSummary | backend/routes.py:413-416 | only a pending summary becomes `processing` |
| Attachments.Attachment.FinishRegeneratedSummary | backend/routes.py:422-426 | only a processing summary becomes `complete` with the new text |
| Attachments.Attachment.CancelSummary | backend/routes.py:469-477 | the transition of cancel, and the status reported is the status afterwards |
| Attachments.UploadAttachment | backend/routes.py:264-289 | no file part, an empty name and a refused extension are the three errors; otherwise a fresh pending attachment with the sanitised name, the stored name and the accepted filetype, which is the filetype read back from the stored name whenever the sanitiser keeps the extension |
| FileSelection.SelectionBounded | backend/routes.py:849-860 | no more files are selected than numbers are given |
| FileSelection.SelectionConcat | backend/routes.py:849-860 | selecting from concatenated number lists concatenates the selections: request order is kept |
| FileSelection.SelectionOfKept | backend/routes.py:849-860 | `Selection`, the attachments the numbers pick: when every number is in range and its file exists, entry `i` is the attachment numbered `numbers[i]`, repeats included |
| FileSelection.SelectionOfDropped | backend/routes.py:849-860 | numbers out of range or naming missing files contribute nothing |
| FileSelection.SelectFiles | backend/routes.py:845-860 | the loop builds exactly the selection, and `analyzed_files[i]` is the name of `file_attachments[i]`; both are no longer than `file_numbers` |
| ImageCleanup.TargetOf | backend/routes.py:237-239 | a URL asks for a name exactly when it contains `/api/downloaded_images/`, and the name is `secure_filename` of the end of the URL that follows an occurrence of the marker and holds no marker itself |
| ImageCleanup.TargetsStep | backend/routes.py:233-245 | one more URL adds at most its own name to the names to delete |
| ImageCleanup.TargetsFromUrls | backend/routes.py:233-245 | `Targets`, the names the URLs ask to delete (`Target` of each, described by TargetOf): every name is asked for by one of the URLs |
| ImageCleanup.TargetsOnlyFromMarkedUrls | backend/routes.py:237 | URLs without the marker delete nothing |
| ImageCleanup.TargetsBounded | backend/routes.py:233-245 | at most one name per URL |
| ImageCleanup.DeleteOne | backend/routes.py:242-244 | deleting an existing file lowers the count of remaining files by one; a missing one changes nothing |
| ImageCleanup.DeleteEach | backend/routes.py:231-245 | the loop removes exactly the existing files the URLs name, the count plus the remaining files is the original number, and the count is at most the number of URLs |
| ImageCleanup.CleanupImages | backend/routes.py:223-249 | an empty list returns at once with nothing deleted; otherwise the message reports the count of the loop |
| Workspace.PatchNote | backend/routes.py:143-154 | an update never changes the owner of a note |
| Workspace.PatchFolder | backend/routes.py:589-594 | an update never changes the owner of a folder |
| Workspace.EmptyNotePatchKeepsNote | backend/routes.py:143-154 | a body with none of the keys changes nothing |
| Workspace.PatchNoteIdempotent | backend/routes.py:143-154 | sending the same body twice is sending it once |
| Workspace.PatchNoteThen | backend/routes.py:143-154 | two updates in a row are one update in which the later keys win |
| Workspace.PatchFolderLaws | backend/routes.py:589-594 | an empty folder body changes nothing, and repeating a folder body is idempotent |
| Workspace.UnlinkFolder | backend/routes.py:609 | unlinking keeps every note |
| Workspace.UnlinkFolderExactly | backend/routes.py:609 | afterwards no note refers to the folder, no note is lost, only the folder link changed, and notes of other folders are untouched |
| Workspace.ApplyNotePatch | backend/routes.py:143-154 | the conditional field assignments give the patched note |
| Workspace.LastUserText | backend/routes.py:831 | the last user message of a note, if any, is a saved user message of that note with no user message of the note after it (the most recent one); none means the note has no user message |
| Workspace.LastUserTextOfAppended | backend/routes.py:831-837 | saving a message makes it the last one for its note and leaves other notes' last message alone |
| Workspace.RecordUserMessageIsLast | backend/routes.py:831-837 | after `chat_respond` records, the note's last user message is the one just sent, and other notes are unaffected |
| Workspace.RecordUserMessageIdempotent | backend/routes.py:831-837 | recording the same message twice is recording it once |
| Workspace.DecideThenRespondSavesOnce | backend/routes.py:678-680 | after `chat_decide` saved the message, `chat_respond` with the same message does not save it again |
| Workspace.Store.UpdateNote | backend/routes.py:136-157 | only the caller's own note is found; when found it is patched, and nothing else changes |
| Workspace.Store.UpdateFolder | backend/routes.py:582-597 | the same rule for folders |
| Workspace.Store.DeleteFolder | backend/routes.py:602-613 | the caller's folder is removed after every note referring to it, whoever owns the note, is unlinked; no note is deleted |
| Workspace.Store.SaveUserMessage | backend/routes.py:678-680 | `chat_decide` appends the user message unconditionally |
| Workspace.Store.SaveUserMessageIfNew | backend/routes.py:831-837 | `chat_respond` saves exactly when the message differs from the note's last user message |
| LatexFormat.BlockPassWithoutDollar | backend/services.py:21 | the block pass leaves text without `$` unchanged |
| LatexFormat.InlinePassWithoutDollar | backend/services.py:24 | the inline pass leaves text without `$` unchanged |
| LatexFormat.FormatWithoutDollar | backend/services.py:18-25 | `FormatLatexForTiptap`, the block pass then the inline pass, returns text without `$` unchanged |
| LatexFormat.BlockPassSkipsPlain | backend/services.py:21 | a run in which no `$$` can start is copied, and the pass goes on after it |
| LatexFormat.BlockPassClosesAfterBody | backend/services.py:21 | `$$body$$` with a body holding no `$$` becomes one block-math node: the shortest match |
| LatexFormat.BlockPassRendersFormulas | backend/services.py:21 | on any text of plain runs and `$$formula$$` pieces, the block pass yields exactly the reference block markup |
| LatexFormat.BlockPassLeavesUnclosed | backend/services.py:21 | an opening `$$` with no closing `$$` stays in the text |
| LatexFormat.InlinePassSkipsPlain | backend/services.py:24 | a run without `$` is copied, and the pass goes on after it |
| LatexFormat.InlinePassClosesAfterBody | backend/services.py:24 | `$body$` with a non-empty, dollar-free body becomes one inline-math node |
| LatexFormat.InlinePassRendersFormulas | backend/services.py:24 | on any text of dollar-free runs and `$formula$` pieces, the inline pass yields exactly the reference inline markup |
| LatexFormat.InlinePassLeavesUnclosed | backend/services.py:24 | a `$` with no closing `$` is left as it is |
| LatexFormat.DisplayFormulaBecomesBlock | backend/services.py:18-25 | a `$$body$$` formula becomes a block node, and the inline pass, which runs second, leaves it alone |
| LatexFormat.MarkupHasNoDollar | backend/services.py:21 | a block node built from a dollar-free body holds no `$` |
| LatexFormat.InlineAloneSplitsDisplayFormula | backend/services.py:21-24 | without the block pass first, `$$body$$` would become `$`, an inline node and `$`: the pass order matters |
| ChatService.StripFencesLeavesNoFence | backend/services.py:138 | `StripFences` (strip, remove the ```json and ``` fences, strip): whatever the model returned, no code fence reaches the JSON parser |
| ChatService.StripFencesKeepsBareJson | backend/services.py:138 | text without backticks or outer whitespace passes unchanged |
| ChatService.StripFencesUnwrapsCodeBlock | backend/services.py:212 | a JSON object wrapped in a ```json code block comes out bare |
| ChatService.CodeBlockFencesRemoved | backend/services.py:212 | removing the two fence forms from a code block leaves its body between newlines |
| ChatService.StripNewlines | backend/services.py:212 | the final strip removes those newlines |
| ChatService.SearchStep | backend/services.py:144-153 | the mention flag is set exactly when the decision asks for the search tool; a present, non-empty query gives the search-results context, a missing one the "Query missing" context, and any other decision no context |
| ChatService.MentionSearch | backend/services.py:219-220 | after a search the lower-cased reply always says "searched for"; without a search, or when it already says so, the reply is unchanged; otherwise it gets the prefix |
| ChatService.MentionSearchIdempotent | backend/services.py:219-220 | adding the mention twice is adding it once |
| ChatService.Finalize | backend/services.py:214-222 | the new note is LaTeX-formatted when present; the confirmation flag is kept; the reply text after a search is exactly `MentionSearch` of the parsed text, so it mentions the search; a search with no reply text is the `KeyError` |
| ChatService.ChatWithAi | backend/services.py:66-231 | with no API key the fixed no-key reply; otherwise the attempt's reply, or on any failure the error reply; both fallbacks keep the note content and force confirmation |
| ChatService.TryChat | backend/services.py:129-222 | the `try` block gives exactly the attempt: the first call, parsing, then the rest |
| ChatService.RespondTo | backend/services.py:140-222 | the search step, the second call, parsing and shaping, step by step |
| ChatService.ShapeReply | backend/services.py:214-222 | the in-place formatting and mention of the parsed reply give `Finalize` |
| ImageSearch.KeptChars | backend/image_search.py:81 | only ASCII letters and digits, spaces, hyphens and underscores are kept; the order and contents are pinned by KeptCharsOne and KeptCharsConcat |
| ImageSearch.Underscored | backend/image_search.py:81 | replacing spaces by underscores keeps the length, turns every space into `_` and keeps every other character |
| ImageSearch.SafeQueryIsPlainName | backend/image_search.py:81 | the stem holds only letters, digits, hyphens and underscores, so no `/`, `.` or space, and is no longer than the query |
| ImageSearch.KeptCharsOne | backend/image_search.py:81 | one character is kept exactly when it is an ASCII letter or digit, a space, `-` or `_` |
| ImageSearch.KeptCharsConcat | backend/image_search.py:81 | the filter works character by character, so `cats & dogs` keeps `cats  dogs`: it distributes over concatenation |
| ImageSearch.StripOfKept | backend/image_search.py:81 | stripping kept characters leaves kept characters |
| ImageSearch.SafeQueryKeepsPlainQuery | backend/image_search.py:81 | a query of letters, digits, hyphens and underscores is its own stem |
| ImageSearch.FileNumberOfImageFilename | backend/image_search.py:82 | the number read back after `stem_` is `idx + 1` |
| ImageSearch.ImageFilenamesDiffer | backend/image_search.py:57-82 | names of different positions differ, whatever their extensions |
| ImageSearch.ImageFilenameHasNoSeparator | backend/image_search.py:82-83 | a name built from separator-free parts has no `/` |
| ImageSearch.BeforeChar | backend/image_search.py:78 | `split('?')[0]` is the prefix of the URL with no `?` in it that stops at the first `?`, and is the whole URL when there is none |
| ImageSearch.ExtensionFor | backend/image_search.py:68-78 | the extension is one dot and no further dot, holds no `/` or `?`, and is one of the four known ones for a recognised content type |
| ImageSearch.UrlExtension | backend/image_search.py:78 | the URL extension, or `.jpg`, is one dot and no further dot, without `/` or `?` |
| ImageSearch.ExtensionIgnoresUrlForKnownType | backend/image_search.py:68-76 | a recognised content type decides the extension whatever the URL |
| ImageSearch.ExtensionFromUrlPath | backend/image_search.py:77-78 | otherwise only the URL path decides, not its query string |
| ImageSearch.BeforeCharOfJoin | backend/image_search.py:78 | the text before `?` of `url?query` is `url` |
| ImageSearch.JpegTypeFirst | backend/image_search.py:69-70 | a jpeg content type gives `.jpg` whatever else it names |
| ImageSearch.JpgTypeFirst | backend/image_search.py:69-70 | so does a content type naming `jpg` |
| ImageSearch.PngType | backend/image_search.py:71-72 | without jpeg or jpg, a png content type gives `.png` |
| ImageSearch.GifType | backend/image_search.py:73-74 | without jpeg, jpg or png, a gif content type gives `.gif` |
| ImageSearch.WebpType | backend/image_search.py:75-76 | without any of those, a webp content type gives `.webp` |
| ImageSearch.UnknownTypeUsesUrl | backend/image_search.py:77-78 | any other content type leaves the extension to the URL |
| ImageSearch.UrlExtensionOfName | backend/image_search.py:78 | a URL whose last path component is `stem.ext` gives `.ext`, with or without a query string |
| ImageSearch.UrlExtensionOfDotlessName | backend/image_search.py:78 | a URL whose last path component has no dot gives `.jpg`, with or without a query string |
| ImageSearch.PrefixSlice | backend/image_search.py:57 | `results[:limit]` is a prefix, of length `limit` capped by the list for a non-negative limit, and of the list's length plus `limit` (at least 0) for a negative one |
| ImageSearch.DownloadOfNamed | backend/image_search.py:57-95 | `DownloadOf`, what one result adds: a saved entry's name records its position and has no `/` |
| ImageSearch.PresentKeepsEvery | backend/image_search.py:57-103 | a skipped result does not hide the entries after it |
| ImageSearch.PositionsMatch | backend/image_search.py:57-95 | each saved entry comes from its position, and positions increase along the list |
| ImageSearch.OutcomesNamed | backend/image_search.py:57-95 | every result's entry is named by its position |
| ImageSearch.PresentNamed | backend/image_search.py:57-95 | the saved entries carry increasing numbers, so no two share a name |
| ImageSearch.Downloads | backend/image_search.py:57 | no more entries than results |
| ImageSearch.DownloadsNumbered | backend/image_search.py:57-95 | each saved entry is the download of the result at the position its name records |
| ImageSearch.PresentAtNumber | backend/image_search.py:57-95 | the saved entry with number `i + 1` is the one at position `i` |
| ImageSearch.DownloadsDistinct | backend/image_search.py:57-95 | every saved name records a position among the results, no two saved names are equal, and none has a `/` |
| ImageSearch.DownloadsKeepEverySuccess | backend/image_search.py:57-103 | a missing URL or a failed download skips that result only; every other success is saved |
| ImageSearch.DownloadAll | backend/image_search.py:57-103 | the download loop appends exactly the downloads of `results[:limit]`, in order |
| ImageSearch.LastAttemptNeverWaits | backend/image_search.py:112-120 | the third attempt never waits and is the last, and no more images than `limit` are saved |
| ImageSearch.SecondAttemptWaits | backend/image_search.py:112-117 | the second attempt waits 10 s at most, and only when a third attempt follows |
| ImageSearch.RunFromStart | backend/image_search.py:29-124 | `Run`, the retry loop as a function: one to three searches; the waits are none, 5 s, 10 s or 5 s then 10 s, always fewer than the attempts; at most `limit` images |
| ImageSearch.RunImagesFromResults | backend/image_search.py:32-106 | images are saved only from a search that returned results, and they are the downloads of that search's results |
| ImageSearch.RunImagesFromLastSearch | backend/image_search.py:32-106 | a non-empty result ends the loop: any images saved are the downloads of the last search made, which returned results |
| ImageSearch.SearchAndDownloadImages | backend/image_search.py:7-128 | the retry loop with `break` and `continue` gives exactly the run: the images, the back-off waits and the number of searches |
| Text.Find | backend/services.py:219 | the leftmost occurrence at or after the start, and none before it; none at all when absent |
| Text.FindIffContains | backend/routes.py:237 | a search from the start succeeds exactly when `p in s` |
| Text.Lower | backend/routes.py:24 | lower-casing keeps the length and maps each character |
| Text.Strip | backend/services.py:138 | the result is the slice of the text left after its leading and trailing whitespace, and has no whitespace at either end |
| Text.StripKeepsOccurrences | backend/services.py:138 | stripping cannot create an occurrence |
| Text.RemoveAll | backend/services.py:138 | `replace(p, '')` never lengthens the text |
| Text.RemoveFencesLeavesNone | backend/services.py:138 | after removing every fence left to right, no fence is left |
| Text.AfterLastDot | backend/routes.py:24 | none exactly when there is no dot; otherwise the dot-free tail after the last dot |
| Text.SplitExt | backend/routes.py:273 | `os.path.splitext(p)[1]` is empty or a dot-led, dot-free suffix of `p` |
| Text.SplitExtOfName | backend/routes.py:273 | a last path component `stem.ext` with a character other than a dot in the stem has the extension `.ext`, even when directories or the stem hold dots |
| Text.SplitExtOfDotlessName | backend/image_search.py:78 | a last path component without a dot has no extension |
| Text.SplitExtHasNoSeparator | backend/image_search.py:78 | the extension lies within the last path component |
| Text.SplitLastHasNoSeparator | backend/routes.py:238 | the last piece of `split(sep)` holds no `sep` |
| Text.SplitLastFollowsSeparator | backend/routes.py:238 | when `sep` occurs, the last piece is immediately preceded by an occurrence of it |
| Text.SplitLastAfterFind | backend/routes.py:238 | the text is what precedes, then `sep`, then the last piece |
| Text.SplitLastIsSuffix | backend/routes.py:238 | the last piece is a suffix of the text |
| Text.DecimalString | backend/image_search.py:82 | `str(n)` is a non-empty string of digits |
| Text.DecimalRoundTrip | backend/image_search.py:82 | reading back what `str(n)` wrote gives `n` |
| Text.DigitPrefixOfDigitsThen | backend/image_search.py:82 | the digits of a name end where the extension starts |

## Left out

- Authentication (JWT, bcrypt), Flask routing, request parsing and HTTP status codes: only the rule behind each response is modelled.
- Database queries and commits: tables are maps from id to row and a list of chat messages, and messages are ordered by when they were appended.
- The background threads and the cancel-versus-worker race: each worker is a sequence of status-writing steps, and any interleaving with cancel can be stated as a sequence of `Step`s.
- `time.sleep` and the random delays before searches and between downloads: the back-off waits are returned as a list; the random delays have no effect on the result.
- DuckDuckGo, `requests`, file writes, Gemini, `execute_google_search` and `json.loads` are parameters. One download parameter covers the request and the file write; any exception in either skips that result.
- `secure_filename`, `os.path.join`, `os.path.exists` and `uuid4` are parameters; `os.remove` failing on an existing path is not modelled.
- The prompts, `summary_functions`, the PDF bytes sent with a chat request, and the history and assistant message of `chat_respond`, which are passed to or returned from a model call.
- The JSON type checks of a parsed reply (a non-string `response_text`): the parsed reply is a record of optional fields.
- A JSON `null` for `title` or `isHiddenFromTopBar` in `update_note`, or for `name` in `update_folder`: these patch fields are either absent or carry a value, so a null cannot be expressed. The source would store the null and the commit would fail on the NOT NULL columns (backend/models.py:16, backend/models.py:28, backend/models.py:34). That failing commit is not modelled.
- Attachments.UploadAttachment: uses the corrected filetype rule from the findings below. For an accepted name whose sanitised form loses its extension (`.png`, `_.png`, `图片.png`, which `secure_filename` turns into `png`, `png`, `png`), it returns a pending attachment, where the route as written saves the file and then fails with `IndexError`. The save is not modelled. Where the sanitiser keeps the extension, the contract states that the filetype equals what the route reads back.
- Text.Lower: models `str.lower()` on ASCII letters only; other letters are left unchanged.
- ImageSearch.SafeQueryIsPlainName: `isalnum()` is modelled on ASCII letters and digits only (in `Kept`, hence ImageSearch.KeptChars and ImageSearch.KeptCharsOne), so non-ASCII letters that Python keeps in the stem are dropped by the model.
- Text.SplitLastFollowsSeparator: `split(sep)[-1]` is the piece after the last of the non-overlapping occurrences found left to right, which is the text after the last occurrence except for overlapping separators.

## Findings

| source | as written | input that shows it | evidently intended | confidence | as-written member | corrected member |
|---|---|---|---|---|---|---|
| backend/routes.py:270-278 | the filetype is read from the stored name after `secure_filename` and `splitext`, which can drop the extension that `allowed_file` accepted | the upload name `.png`: `allowed_file` accepts it, `secure_filename` gives `png`, `splitext` gives no extension, the stored name has no dot and `rsplit('.', 1)[1]` raises `IndexError` after the file is saved | the filetype follows the extension `allowed_file` accepted: image for png/jpg/jpeg/gif, pdf for pdf | not executed | RouteRules.StoredFiletype, RouteRules.LeadingDotUploadHasNoFiletype | RouteRules.UploadFiletype, RouteRules.StoredFiletypeAgrees |
