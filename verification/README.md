# AI website builder: version history, streamed edits and the preview locator

This project models the sequential core of a browser-based website builder.
The builder asks a language model for a whole HTML page, or for an edit to
the current page, and streams the answer into a linear version history. It
has three parts:

- **The generation service** (`gemini_service.dfy`, module `GeminiService`).
  - It builds the prompt for an edit request: an element instruction or a
    text replacement.
  - It turns the chunks of a generation response into a text stream.
  - It decodes a streamed edit response of the form
    `<original block>_|||_<new block>`. Chunks go into a buffer until the
    separator appears. The decoder then yields the original block, then
    the rest of the buffer if that rest is not empty, then every later
    chunk unchanged.
  - A response with no separator is an error. Every edit error is wrapped
    in `Failed to get edit stream. Details: `.
- **The application state** (`builder.dfy`, module `Builder`, class `App`).
  - The state is a history of versions with a current index, plus the
    pending selection, the edit input and the error.
  - Generation drops the versions after the current one and appends an
    empty version. It overwrites that version with the growing text and
    removes it again on failure.
  - An edit checks that the original block occurs in the current version.
    It then appends a copy, which it overwrites with the first occurrence
    of the original block replaced by the new block so far. A failure after
    the copy was appended does not remove it.
  - Messages from the preview set the pending selection.
- **The preview script** (`preview.dfy`, module `Preview`).
  - The locator names an element by its path from the root. It stops at
    the first element with an id, and it adds `:nth-of-type(k)` when
    earlier siblings share the tag.
  - The mouse-up and click handlers share the `lastSelection` flag, so a
    text selection suppresses the click that ends it.
  - The preview document appends the script in edit mode.

`text.dfy` (module `Text`) gives the JavaScript string operations the code
relies on: `+=` accumulation, `indexOf`, `includes`, `replace` with a string
pattern, `join`, `trim` and the decimal rendering of a number.

The network is not modelled. What the service does with a request is a
given `Reply`: either a rejection with a message, or a sequence of chunks
plus how the stream ended (completed, or broken with a message). Each
handler runs as one sequential step on one `App` object.

## Model

| member | source | states |
|---|---|---|
| Text.IndexOf | services/geminiService.ts:130 | `indexOf` returns -1 exactly when the pattern occurs nowhere, otherwise the first position where it occurs |
| Text.Includes | App.tsx:140 | `includes` holds exactly when the pattern occurs somewhere |
| Text.IndexOfExtend | services/geminiService.ts:129-130 | once the buffer contains the separator, appending text does not move its first occurrence |
| Text.ReplaceFirst | App.tsx:152 | `replace` with a string pattern returns the text unchanged when the pattern is absent; otherwise the length changes by the difference of the two lengths |
| Text.ReplaceFirstUndo | App.tsx:152 | only the first occurrence is replaced: the text before it is kept, the replacement sits at its position, and putting the pattern back restores the original |
| Text.ReplaceFirstGrow | App.tsx:150-152 | growing the new block by one chunk inserts that chunk right after what was inserted before |
| Text.JoinSnoc | components/PreviewPanel.tsx:30-33 | joining one more trailing segment appends the separator and that segment |
| Text.NatToString | components/PreviewPanel.tsx:28 | the rendering of `nth` has only digits and no leading zero, and it reads back as `nth` |
| Text.ConcatAppend | App.tsx:97 | the text accumulated with `+=` over two runs of chunks is the first run's text followed by the second's |
| GeminiService.EditInstructionLayout | services/geminiService.ts:91-95 | an element request holds the locator and the user's instruction in quotes; a text request holds the locator, the original text and the new text at fixed positions |
| GeminiService.InstructionKindsDiffer | services/geminiService.ts:91-95 | element and text requests never produce the same instruction |
| GeminiService.FullEditPromptLayout | services/geminiService.ts:97-106 | the prompt is the html fence opening, the current document verbatim, the closing fence, the instruction and the format reminder |
| GeminiService.FullEditPromptInjective | services/geminiService.ts:97-106 | two prompts for the same request are equal only when the documents are, so the prompt carries the whole document |
| GeminiService.StreamToGenerator | services/geminiService.ts:49-53 | one text per upstream chunk, that chunk's text, in order |
| GeminiService.GenerateWebsiteCodeStream | services/geminiService.ts:55-75 | a rejected request fails with its message wrapped in the generate prefix; otherwise the chunk texts are passed on in order with the stream's own ending |
| GeminiService.EditFailure | services/geminiService.ts:143-153 | a rejection and a broken stream both fail with the message wrapped in the edit prefix; a completed stream fails exactly when the separator never appears, and then with the wrapped invalid-format message; every failure starts with the prefix |
| GeminiService.DecodeEdit | services/geminiService.ts:120-141 | the buffer loop yields exactly the decoder's values for the chunk texts, and it finds the separator exactly when the whole text contains it, which is exactly when something was yielded |
| GeminiService.StreamWebsiteEdit | services/geminiService.ts:88-155 | the prompt built for the request is the full edit prompt for the current version; the values yielded are the decoded values of the reply; the stream ends with the wrapped error, and a completed stream fails exactly when nothing was yielded |
| GeminiService.SplitAtSeparator | services/geminiService.ts:130-139 | the search of the buffer yields nothing exactly when it lacks the separator, otherwise one or two values, the second never empty |
| GeminiService.EditYieldsSearch | services/geminiService.ts:129-139 | before the separator a chunk only extends the buffer, and what is yielded is what the search of the whole buffer finds |
| GeminiService.EditYieldsPassOne | services/geminiService.ts:124-127 | after the separator a chunk is yielded as it is and the text read still contains the separator |
| GeminiService.EditYieldsEmpty | services/geminiService.ts:129-133 | nothing is yielded exactly when the concatenated text does not contain the separator |
| GeminiService.EditYieldsPrefix | services/geminiService.ts:123-141 | the values yielded after a prefix of the chunks are a prefix of the values yielded after all of them |
| GeminiService.EditYieldsPassThrough | services/geminiService.ts:124-127 | once the separator has been read, every later chunk is yielded verbatim, once, in order |
| GeminiService.EditYieldsAtSeparator | services/geminiService.ts:130-139 | on the chunk that completes the first separator, the decoder yields the text read before the separator, then the text after it exactly when that is not empty; every later chunk is passed on after them |
| GeminiService.EditYieldsFirst | services/geminiService.ts:130-136 | the first value is the concatenated text up to the first separator, however the chunks cut it |
| GeminiService.EditYieldsRest | services/geminiService.ts:124-139 | the values after the first concatenate to the text after the first separator; a later separator stays inside the new block |
| GeminiService.EditYieldsChunkingIrrelevant | services/geminiService.ts:123-141 | two chunkings of the same text both fail, or they yield the same original block and new blocks with the same concatenation |
| Preview.Visited | components/PreviewPanel.tsx:15-20 | the walk visits elements without an id until it has visited the first one with an id, or until the element ancestors run out |
| Preview.Segments | components/PreviewPanel.tsx:14-33 | one segment per visited element, root side first |
| Preview.GetCssSelector | components/PreviewPanel.tsx:12-34 | the upward walk returns the locator of the target; the result is missing exactly when the target is not an element |
| Preview.LevelSelector | components/PreviewPanel.tsx:16-29 | one level contributes its tag with `#id` when it has an id, otherwise its tag with its 1-based position among same-tag siblings unless that is 1 |
| Preview.CountNthOfType | components/PreviewPanel.tsx:22-26 | the sibling loop gives 1 plus the number of previous element siblings with the same tag |
| Preview.LocatorById | components/PreviewPanel.tsx:17-20 | an element with an id is located by `tag#id` alone |
| Preview.LocatorExtendsParent | components/PreviewPanel.tsx:21-33 | an element without an id is located by its parent's locator, then ` > `, then its own segment; with no element parent its segment alone is the locator |
| Preview.NthOfTypeExample | components/PreviewPanel.tsx:21-29 | the third child of `[div, span, div, div]` is `div:nth-of-type(2)` |
| Preview.FirstOfTypeHasNoSuffix | components/PreviewPanel.tsx:27-28 | an element with no previous sibling of its tag gets no suffix |
| Preview.TrimStart | components/PreviewPanel.tsx:63 | removes exactly the leading white space |
| Preview.TrimEnd | components/PreviewPanel.tsx:63 | removes exactly the trailing white space |
| Preview.Trim | components/PreviewPanel.tsx:63 | `trim` keeps the part between the leading and the trailing white space, and is empty exactly when the selection is all white space |
| Preview.SelectionScript.constructor | components/PreviewPanel.tsx:10 | no selection is remembered at first |
| Preview.SelectionScript.OnMouseUp | components/PreviewPanel.tsx:58-76 | a non-empty trimmed selection is remembered and posted with the locator of the anchor's element (the parent when the anchor is a text node); an empty one posts nothing and changes nothing |
| Preview.SelectionScript.OnClick | components/PreviewPanel.tsx:78-93 | a click right after a selection is swallowed and the selection forgotten; otherwise the click posts the target's locator |
| Preview.Gesture | components/PreviewPanel.tsx:58-93 | a mouse-up followed by its click posts at most one message: the text selection, or else the clicked element unless a remembered selection swallows it |
| Preview.SrcDoc | components/PreviewPanel.tsx:100-102 | in edit mode the page is followed by the script element; otherwise the page is unchanged, and only then is the result the page itself |
| Builder.EditRequestFor | App.tsx:126-128 | an element selection becomes an element request carrying the input as the instruction; a text selection becomes a text request carrying its text as the original and the input as the new text; the locator is kept |
| Builder.GenerateFailure | App.tsx:93-107 | a generation fails unless the request was accepted and the stream completed; a rejected request fails with its message wrapped in the generate prefix, a broken stream with its own message unwrapped |
| Builder.EditedSnapshotStep | App.tsx:150-157 | each later chunk recomputes the copy from the unchanged base with the grown new block, unless the original block is empty |
| Builder.EditedSnapshotOfResponse | App.tsx:136-159 | for a response with the separator, an empty original block leaves the base, and a non-empty new block always arrives; once a value after a non-empty original block has arrived, the version is the base with the original block replaced by the whole text after the separator |
| Builder.EditedSnapshotChunkingIrrelevant | App.tsx:136-159 | with a non-empty new block, the edited version does not depend on the chunking |
| Builder.DeletionResponse | services/geminiService.ts:129-139 | the one-chunk response `a` followed by the separator yields only `a` |
| Builder.DeletionIgnored | App.tsx:149-158 | the deletion asked by `a` followed by the separator leaves `ab` as it is, instead of `b` |
| Builder.DeletionChunkedResponse | services/geminiService.ts:123-139 | the same response text with one more, empty, chunk reads the same text but yields `a` and an empty new block |
| Builder.DeletionDependsOnChunking | App.tsx:149-158 | cut that way, the same deletion is applied, giving `b` |
| Builder.CorrectedEditedSnapshotOfResponse | App.tsx:149-158 | the corrected version is the base with the original block replaced by the whole text after the separator, including an empty one, for every chunking |
| Builder.App.constructor | App.tsx:42-63 | one seed version that is current, no error, no selection, empty input and prompt; the key dialog is open exactly when no key is stored |
| Builder.App.CurrentCode | App.tsx:200 | the current version, or the empty text when the index names none |
| Builder.App.SetCode | App.tsx:71-77 | the code editor replaces the current version and no other |
| Builder.App.SelectVersion | components/ControlPanel.tsx:36-39 | choosing a listed version makes it current and keeps the index valid |
| Builder.App.SetPrompt | components/ControlPanel.tsx:82 | the prompt is the typed text |
| Builder.App.SetEditMode | components/ControlPanel.tsx:141 | edit mode is set as requested |
| Builder.App.SetEditInput | App.tsx:258 | the edit input is the typed text |
| Builder.App.DismissSelection | App.tsx:264 | cancelling the dialog drops the pending selection |
| Builder.App.WriteGenerated | App.tsx:95-103 | after the stream, the new version is the concatenation of all chunks, and every other version is unchanged |
| Builder.App.DropFailedVersion | App.tsx:104-111 | on failure the new version is removed and the index moves back; the message is shown, and an `API key` or `403` message opens the key dialog |
| Builder.App.HandleGenerate | App.tsx:79-115 | an empty prompt only sets the error. Otherwise success gives the kept prefix plus the concatenated text, now current; failure gives the kept prefix with the old index and the failure message. Either way loading ends and edit mode is off |
| Builder.App.ApplyEditStream | App.tsx:136-160 | the loop stops with the misalignment error, history untouched, exactly when the first value does not occur in the base; otherwise the history is the kept prefix plus the edited version, now current |
| Builder.App.TryEdit | App.tsx:123-163 | the prompt for the current version is sent. With nothing yielded the history is unchanged and the error is the stream's; a misaligned first value changes no version and reports the misalignment; an aligned one drops the later versions, appends the edited version and makes it current, keeping the stream's error without rolling back |
| Builder.App.CloseEditDialog | App.tsx:164-168 | the editing flag is off and the selection and the input are cleared |
| Builder.App.HandleEdit | App.tsx:117-169 | a missing instruction or selection only sets the error and changes nothing else. Otherwise the prompt for the current version built from the selection and the input is sent, the history, index and error are as for the try block above, and the selection, input and editing flag are cleared |
| Builder.App.HandleMessage | App.tsx:172-182 | outside edit mode nothing changes; an element selection sets the selection; a text selection sets the selection and pre-fills the input; other messages change nothing |

## Left out

- The model client, the API key and its storage are not modelled: `getAiClient`, the cached client, the environment lookup, `localStorage` and the key dialog's save handler. The service's answer is a `Reply` parameter, and the stored key is the constructor's `hasApiKey`.
- The sampling configuration (temperature, top-p, top-k) and the system instruction texts are not modelled. They are passed to the client and never read by the application.
- The model choice is not modelled; it only selects the remote model.
- Rendering is not modelled: the JSX of `App.tsx` and of every component, `Header`, `Footer`, `icons`, `CodeEditorPanel` and `ApiKeyModal`.
- The file download (`handleDownload`) is not modelled. It only uses browser objects.
- The highlight on mouse-over and mouse-out is not modelled, nor are `preventDefault` and `stopPropagation`. The `postMessage` transport is replaced by returned messages.
- `Preview.SrcDoc` takes the selection script's text as a parameter. The text itself is not reproduced.
- `Builder.App.constructor` takes the seed page as a parameter. The `INITIAL_HTML` text is not reproduced.
- React state batching, stale closures and overlapping requests are not modelled. Each handler is one sequential step on one object, and the history it reads is the one current when it starts.
- `Text.ReplaceFirst`: the `$` patterns that JavaScript's `replace` expands in the replacement string (`$&`, `$$` and the like) are not modelled. A new block containing `$` is inserted literally.
- Console logging is not modelled.
- JavaScript strings are sequences of UTF-16 code units, while `string` here is a sequence of Unicode scalar values. Positions found by `indexOf` and cut by `substring` are never shown to the user, and on well-formed text the matches are the same, so the difference is not observable in the modelled operations.
- Thrown values that are not `Error` objects are not modelled. They give the fixed "unknown error" messages, and a `Reply` always carries an error message.
- An edit that fails after its copy was appended keeps that copy, as the code does (`App.tsx:161-163`). A rollback to the previous version is not modelled, because the code has none.
- Messages from origins other than the preview are not modelled. They are handled like any other message of the same type.

## Findings

| source | as written | input that shows it | evidently intended | confidence | as-written member | corrected member |
|---|---|---|---|---|---|---|
| services/geminiService.ts:137-139 with App.tsx:149-158 | an empty rest after the separator is not yielded, and the version is written only when a value after the original block arrives, so a deletion (the original block and the separator, with nothing after it) leaves the copy unchanged; the outcome depends on the chunking | base `ab`, one chunk holding `a` and the separator: the new version is `ab`; the same chunk followed by an empty chunk gives `b` | the original block is replaced by the new block even when the new block is empty, independent of chunking | not executed | Builder.DeletionIgnored | Builder.CorrectedEditedSnapshotOfResponse |

The `App` class keeps the code's behaviour (`Builder.EditedSnapshot`), so
its contracts describe what the application does today.
`Builder.CorrectedEditedSnapshot` is the corrected definition, and
`Builder.CorrectedEditedSnapshotOfResponse` proves the intended property
about it.
