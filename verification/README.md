# Lumina edit pipeline in Dafny

A functional model of the client-side edit pipeline of the Lumina photo
editor. It covers three parts:

- **The session** (`App.tsx`). The React state is one immutable `Session`
  record, and each handler is a pure transition on it: upload, edit,
  delete, undo, change image, reset and select from history. The history
  label and the error classifier of `handleEdit` are stand-alone functions.
- **The service** (`services/geminiService.ts`). This covers the prompt
  template chosen per edit mode, the single request to the fixed model,
  and the scan for the first inline image part, which is wrapped as a PNG
  data URI.
- **The panel** (`components/ActionPanel.tsx`). This covers which edit
  controls are disabled, and which `onEdit` call each click makes.

The modules are:

| file | module | contents |
|---|---|---|
| `types.dfy` | `Types` | Edit modes, selections and history entries. Also JavaScript optional values, truthiness, and how `${x}` prints an absent value. |
| `js.dfy` | `Js` | The string built-ins the code relies on, each as a specification plus an implementation: `includes`, `trim` (with the ECMAScript white-space set), `split(',')[1]`, and `toFixed(4)` on the exact rational value of a double. |
| `gemini.dfy` | `Gemini` | Prompt templates, the request, the response decoder and `editImage`. |
| `app.dfy` | `App` | The session record, its handlers, the consistency invariant and the lemmas relating the handlers. |
| `panel.dfy` | `Panel` | Disabled conditions, click handling, and the wiring of the panel into the session. |
| `inflight.dfy` | `InFlight` | `handleEdit` split at its `await`, so other handlers can run while a request is in flight (see Findings). |

The backend's answer is a parameter of the edit: a reply with or without
candidates, or a thrown error that carries its message and its
`JSON.stringify` text. The id and timestamp taken from `Date.now()` are
also parameters. So every transition is total and deterministic.

The invariant the session keeps has three parts:

- without history there is no working image;
- the working image is the result of *some* history entry;
- without a source image there is neither a history nor a working image.

The working image need not be the *newest* entry's result: selecting an
older entry shows that entry, and the history stays as it was.

## Model

| member | source | states |
|---|---|---|
| Js.Includes | App.tsx:101-102 | `includes` holds exactly when the searched text occurs at some position of the string |
| Js.TrimStart | components/ActionPanel.tsx:35 | what `trim` drops at the front is white space, and what it keeps is a suffix that starts with a non-space |
| Js.TrimEnd | components/ActionPanel.tsx:35 | what `trim` drops at the back is white space, and what it keeps is a prefix that ends with a non-space |
| Js.Trim | components/ActionPanel.tsx:35 | no contract of its own; `Js.TrimStart`, `Js.TrimEnd` and `Js.BlankIffAllSpace` state it |
| Js.BlankIffAllSpace | components/ActionPanel.tsx:35 | a text trims to empty exactly when every character is ECMAScript white space or a line terminator |
| Js.Split | App.tsx:75 | `split` gives at least one piece and no piece contains the separator; `Js.JoinSplit` states that the pieces join back to the text |
| Js.JoinSplit | App.tsx:75 | `split` loses nothing: joining the pieces with the separator gives back the string |
| Js.SplitAfterHead | App.tsx:75 | splitting at a first separator yields the text before it, followed by the pieces of the rest |
| Js.SecondPiece | App.tsx:75 | `split(',')[1]` is undefined exactly when there is no comma, and otherwise is a comma-free piece |
| Js.SecondPieceBetweenSeparators | App.tsx:75 | `split(',')[1]` is the text between the first comma and the next comma or the end; every text with a comma has one of these two forms |
| Js.DecimalRoundTrip | services/geminiService.ts:32 | the integer part of a printed number reads back as that integer |
| Js.TenThousandthsRoundTrip | services/geminiService.ts:32 | a four-decimal numeral reads back as the count of ten-thousandths it was printed from |
| Js.TenThousandths | services/geminiService.ts:32 | the fixed-point layout is one or more digits without a leading zero (a lone 0 aside), a point and exactly four digits |
| Js.ToFixed4 | services/geminiService.ts:32 | `toFixed(4)` prints digits without a leading zero, a point and four digits denoting the count of ten-thousandths nearest to the number's magnitude, the larger one on a tie, behind a minus sign when the number is negative |
| Gemini.HeaderDecidesMode | services/geminiService.ts:16-74 | each mode's first line identifies that mode, whatever follows it |
| Gemini.PromptNamesItsMode | services/geminiService.ts:16-74 | every instruction built for a mode is recognised as that mode and no other, whatever the text and the selection |
| Gemini.DistinctModesDistinctPrompts | services/geminiService.ts:16-74 | two different modes never produce the same instruction |
| Gemini.FixedPromptsIgnoreInputs | services/geminiService.ts:17-54 | background removal and enhancement send a constant instruction, independent of text and selection |
| Gemini.ObjectRemovalTarget | services/geminiService.ts:30-44 | with a picked point, object removal names that point's four-decimal coordinates and ignores the text; without one, it quotes the text as the target description |
| Gemini.BlurFocus | services/geminiService.ts:55-68 | the blur instruction anchors focus at the picked point, or asks for automatic focus without one; the text never matters |
| Gemini.CustomPromptEmbedsText | services/geminiService.ts:69-73 | the user's text sits verbatim between double quotes and can be read back out of the instruction unchanged |
| Gemini.BuildPrompt | services/geminiService.ts:16-74 | no contract of its own; `Gemini.HeaderDecidesMode`, `Gemini.PromptNamesItsMode`, `Gemini.FixedPromptsIgnoreInputs`, `Gemini.ObjectRemovalTarget`, `Gemini.BlurFocus` and `Gemini.CustomPromptEmbedsText` state it |
| Gemini.BuildRequest | services/geminiService.ts:77-96 | no contract of its own; `Gemini.EditImage` states the request it builds |
| Gemini.FirstInlineData | services/geminiService.ts:102-106 | the scan returns the first part, in order, that carries inline data, or nothing when no part does |
| Gemini.DecodeResponse | services/geminiService.ts:99-109 | there is a result exactly when the first candidate has an inline-data part; it is the PNG data URI of the first such part's data |
| Gemini.Outcome | services/geminiService.ts:99-113 | a thrown error is passed on unchanged; a reply becomes the decoded data URI when the first candidate carries an image, and `null` otherwise |
| Gemini.EditImage | services/geminiService.ts:76-97 | exactly one request goes to the fixed model, with the parts [image with its MIME type, instruction] and aspect ratio 1:1, and its result is the outcome of the reply |
| App.StartEdit | App.tsx:65-77 | no base means no edit; otherwise the payload is the base's second comma-separated piece, the MIME type is the uploaded one, the target is the given selection or the picked point, and the caller's mode and text are kept |
| App.ClassifyError | App.tsx:98-121 | ordered classification: not-found wins over quota, quota over permission, and permission raises the not-found flag; anything else shows the message or a default; the flags are never both set |
| App.RemediationIffProviderSignal | App.tsx:303-309 | the project-switch button appears exactly for not-found, quota and permission errors, captioned for a paid project exactly on quota |
| App.HistoryLabel | App.tsx:81-85 | fixed labels for background removal, enhancement, blur, and object removal at a point; otherwise the prompt, or the default when it is empty or absent |
| App.Edit | App.tsx:65-127 | without a base nothing changes; on an image exactly one entry (base, result) is prepended and becomes the working image; on no image or a throw, history and working image stay and the banner is set; processing, picking and the picked point are always cleared |
| App.FinishEdit | App.tsx:78-127 | no contract of its own; `App.Edit` states its effect for every outcome of the reply |
| App.WithoutId | App.tsx:138 | filtering keeps exactly the entries with another id, and never lengthens the history |
| App.WithoutIdKeepsOrder | App.tsx:138 | the filtered history is the entries at the increasing positions whose id differs, at every such position, so order and multiplicity are kept |
| App.WithoutIdAbsent | App.tsx:138 | filtering out an id no entry carries changes nothing |
| App.WithoutIdHead | App.tsx:138 | the first entry kept is the newest entry whose id differs |
| App.Delete | App.tsx:133-148 | the history becomes the filtered history, so exactly the entries with other ids survive in order; nothing besides history and working image changes; the working image is the newest survivor's result, or none exactly when every entry had the id |
| App.DeleteShowsNewestSurvivor | App.tsx:138-141 | after a delete the working image is the result of the newest entry with another id, whatever was shown before |
| App.Undo | App.tsx:150-164 | an empty history is left alone; otherwise exactly the newest entry goes, the working image follows the new head, and nothing else changes |
| App.ChangeImageClearsSession | App.tsx:166-182 | change image leaves no source, working image, history, banner, picked point or picking, and nothing an edit could start from; it keeps the MIME type, the compounding switch and the in-flight flag; doing it twice is doing it once |
| App.ResetProperties | App.tsx:184-197 | reset keeps the source image, MIME type, compounding switch and in-flight flag, and clears every edit, the banner, the picked point and picking; doing it twice is doing it once |
| App.SelectKeepsHistory | App.tsx:199-205 | selecting an entry shows its result, drops the picked point, stops picking and changes nothing else, so the history stays; its result is the next base when compounding |
| App.UploadDiscardsSession | App.tsx:53-63 | an upload starts a consistent fresh session whatever the previous one held: the uploaded image and MIME type, no history, working image, picked point, picking or banner, and compounding on |
| App.Upload | App.tsx:53-63 | no contract of its own; `App.UploadDiscardsSession` states it |
| App.ChangeImage | App.tsx:166-182 | no contract of its own; `App.ChangeImageClearsSession` states it |
| App.Reset | App.tsx:184-197 | no contract of its own; `App.ResetProperties` states it |
| App.SelectFromHistory | App.tsx:199-205 | no contract of its own; `App.SelectKeepsHistory` states it |
| App.KeySelected | App.tsx:46-51 | no contract of its own; clears the banner once the key selector returns; `App.StepPreservesValid` states that it keeps the session consistent |
| App.ToggleSelectMode | App.tsx:246 | no contract of its own; flips picking; `App.StepPreservesValid` states that it keeps the session consistent |
| App.PickTarget | App.tsx:263 | no contract of its own; records the picked point; `App.StepPreservesValid` states that it keeps the session consistent |
| App.ToggleApplyToResult | App.tsx:281 | no contract of its own; flips compounding; `App.StepPreservesValid` states that it keeps the session consistent, and `App.NextEditBase` what compounding decides |
| App.UndoRevertsEdit | App.tsx:150-164 | undo after a successful edit restores the history from before the edit |
| App.DeleteRevertsEdit | App.tsx:133-148 | deleting the entry a successful edit just added, when its id is new, restores the history |
| App.NextEditBase | App.tsx:66 | after a successful edit, the next one starts from its result when compounding, and from the source otherwise |
| App.StripUndoesWrap | App.tsx:75 | stripping a returned data URI at its first comma gives back the returned base64 data |
| App.EditSendsUserInstruction | App.tsx:75-77 | the request an edit sends is `editImage`'s request for the stripped base, the uploaded MIME type, the caller's mode and text and the effective target, and its instruction decodes to the caller's mode |
| App.ChainedEditSendsReturnedData | App.tsx:66-77 | a compounded follow-up edit sends exactly the previous reply's data, labelled with the uploaded MIME type |
| App.InitialValid | App.tsx:23-31 | the empty session is consistent |
| App.StepPreservesValid | App.tsx:53-205 | every handler keeps history, working image and source image consistent |
| App.RunPreservesValid | App.tsx:53-205 | any sequence of handlers keeps the session consistent |
| Panel.ModeAction | components/ActionPanel.tsx:29-32 | a mode action records the mode as the last one, keeps both text fields, and forwards mode and text unchanged |
| Panel.RemoveObjectAction | components/ActionPanel.tsx:34-37 | the eraser fires exactly when the description is not blank or a point is picked, then with the untrimmed description; otherwise nothing changes |
| Panel.Click | components/ActionPanel.tsx:73-163 | a control forms an edit exactly when it is enabled and is an edit control, and the edit has that control's mode; disabled controls do nothing, so nothing fires while processing; every edit is well formed and recorded as the last mode; cutout, restore and portrait carry no text; pick area toggles picking exactly when not processing; a click that forms no edit leaves the panel's state as it was |
| Panel.OkButtonMatchesGuard | components/ActionPanel.tsx:117-119 | when nothing is in flight, the OK button is enabled exactly when the eraser's guard lets the request through, that is, when the description has a non-space character or a point is picked |
| Panel.PanelEditTargetsPickedPoint | App.tsx:241-248 | an edit from the panel starts only when nothing is in flight, and targets the session's picked point |
| Panel.PanelEditQuotesNonBlankText | components/ActionPanel.tsx:34-37 | the object description or custom text an edit from the panel quotes in its instruction is never blank |
| Panel.TypeObject | components/ActionPanel.tsx:109-115 | no contract of its own; `Panel.TypingRespectsLock` states it |
| Panel.TypingRespectsLock | components/ActionPanel.tsx:109-115 | once a point is picked typing a description changes nothing, so the eraser's click is unchanged; without one, typing replaces the description only |
| Panel.TypeCustomPrompt | components/ActionPanel.tsx:153-156 | no contract of its own; `Panel.TypingDecidesSynthesize` states it |
| Panel.TypingDecidesSynthesize | components/ActionPanel.tsx:153-162 | after typing, synthesize is enabled exactly when nothing is in flight and the text has a non-space character; typing replaces the text only |
| InFlight.BeginThenCompleteIsEdit | App.tsx:65-127 | starting an edit and receiving its reply with nothing in between is the atomic edit |
| InFlight.ChangeImageDuringEditBreaksSession | components/ActionPanel.tsx:180-185 | changing the image while an edit is in flight, then receiving an image, leaves a history entry and a working image with no source image |
| InFlight.UploadDuringEditMixesSessions | App.tsx:220-224 | uploading a new photo while the old one's edit is in flight files that edit as the first entry of the new session |
| InFlight.GuardedRaceIsAtomicEdit | components/ActionPanel.tsx:174-185 | with reset and change image disabled while processing, the same interleaving equals the atomic edit and stays consistent |
| InFlight.GuardedStepPreservesValid | App.tsx:65-205 | under the guard every step, including a reply arriving, keeps the live session consistent |
| InFlight.GuardedRunPreservesValid | App.tsx:65-205 | under the guard any interleaving of edit starts, replies, uploads, resets, image changes, undo, history select and delete, and picks keeps the live session consistent |
| InFlight.BeginEdit | App.tsx:65-72 | no contract of its own; `InFlight.BeginThenCompleteIsEdit` states it |
| InFlight.CompleteEdit | App.tsx:78-127 | no contract of its own; `InFlight.BeginThenCompleteIsEdit` states it |
| InFlight.Step | App.tsx:210-290 | no contract of its own; `InFlight.ChangeImageDuringEditBreaksSession` and `InFlight.UploadDuringEditMixesSessions` state what it allows |
| InFlight.GuardedStep | components/ActionPanel.tsx:174-185 | no contract of its own; `InFlight.GuardedStepPreservesValid` and `InFlight.GuardedRunPreservesValid` state it |

## Left out

- Rendering, layout, the mobile tabs and the history drawer. These are presentation only.
- The confirmation dialog in front of delete, undo, change image and reset. The model uses the confirmed transitions.
- The dialog's confirm closures capture `history` when the dialog opens. Their effect on entries committed while the dialog is open is not modelled.
- The SDK client, the API key and `window.aistudio`. These are foreign calls. The reply, or the thrown error, is a parameter instead.
- `console.error` in the service's catch block. This is I/O.
- `Date.now()` and `JSON.stringify(err)`. Both are parameters.
- Reading files in the upload component, and its `image/` MIME check. This is I/O; an upload arrives as a data URI and a MIME type.
- Turning a click into normalised coordinates in the image display. This is floating-point geometry; a selection is any pair of exact rationals.
- Retries and fallbacks. The code makes exactly one call to one model.
- Js.ToFixed4: the exponent form `toFixed` uses from 1e21 upwards is not modelled, because picked points lie between 0 and 1.
- Gemini.DecodeResponse: a candidate without `content` would make the scan throw a `TypeError`. The model assumes every candidate has its list of parts.
- Panel.Click: the panel's tab switching and its select-mode highlight are presentation.
- The compounding switch and the key selector are not among the events `InFlight` interleaves with an edit. They change neither history nor images, so they cannot affect the consistency the interleaving lemmas state.
- App.Edit: it is atomic. The split at the `await`, and what can run in between, is modelled in `InFlight`.

## Findings

| source | as written | input that shows it | evidently intended | confidence | as-written member | corrected member |
|---|---|---|---|---|---|---|
| components/ActionPanel.tsx:174-185 | "Flush" and "New" have no `disabled={isProcessing}`, unlike every edit control of the panel. The header's change-image control also stays active. So the session can be discarded while `handleEdit` awaits the reply, and the reply is then committed into whatever session exists | upload a photo, start any edit, confirm "New" before the reply arrives, then the reply carries an image: the history has one entry and a working image, but there is no source image. If a new photo is uploaded in between, the old photo's edit becomes the new session's first entry | controls that discard the session are disabled while a request is in flight, as the edit controls are, so the session stays consistent | medium; not executed | InFlight.ChangeImageDuringEditBreaksSession | InFlight.GuardedRunPreservesValid |
