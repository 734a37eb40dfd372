# AI Website Generator: preview editor and generation route

This project models the two parts of the AI Website Generator that hold real
logic, and proves properties of the model.

**The live-preview editor** (`app/playground/_components/WebsiteDesign.tsx`)
shows generated HTML in an iframe and lets the user pick and edit elements.
- `Normalize` turns the generated code into the fragment that is written
  into the preview's `<body id="root">`:
  - it extracts the content of the first `<body …>…</body>`;
  - it removes the code fences and then the first literal `html`;
  - it rewrites JSX `<Image … src=… />` tags to `<img src="…" />` (module
    `Images`, a hand-written matcher for the two regular expressions);
  - it prefixes root-relative image sources with the page origin.
- `Preview` is a class holding the editor's state:
  - the hover and selection slots;
  - the outline and the `contenteditable` flag of each node;
  - the ignore-blur flag with its pending reset timers;
  - the body written into the root.

  Each event handler is a method, and so is the code-update effect.
- `Save` is the save button's effect. It makes a deep copy of the document
  in which the editor's outline and cursor marks are cleared on every
  descendant, and builds the request that sends that copy to the frames
  endpoint.

**The generation route** (`app/api/ai-model/route.ts`) builds the chat
messages for the model and relays the model's server-sent event stream to
the browser.
- `Messages.BuildMessages` is the message builder. It covers three cases:
  messages forwarded as given, an edit request, and a fresh generation.
- `Relay.StreamRelay` is the stream relay. It holds the `isClosed` flag and
  the calls made on the stream controller (`enqueue`, `close`, `error`). It
  has one method each for a data chunk, the end and an error.

`Text` holds the JavaScript string operations all of these rely on:
- `indexOf`;
- `replace` with a string pattern, including the `$` patterns of its
  replacement string;
- `replaceAll`, `trim` and `split`;
- the `\s` and `\w` classes of regular expressions.

Notable behaviour of the code that the model keeps:
- The normaliser is not idempotent. Each pass removes one more `html`
  (`Normalize.StripFencesNotIdempotent`).
- A protocol-relative source such as `//host/x.png` also gets the origin in
  front.
- The reset timers of the ignore-blur guard stack. A later guarded
  mousedown does not cancel an earlier timer, so the earlier timer ends the
  later guard (`Preview.EarlierTimerEndsLaterGuard`).
- Only a leading fence is stripped from the existing code. A fully fenced
  input therefore ends with a doubled closing fence
  (`Messages.DoubledClosingFence`).
- The user input is used as a replacement pattern, not as literal text. An
  input of `$&` leaves the placeholder in the system prompt
  (`Messages.DollarAmpersandKeepsPlaceholder`).
- Event lines are not buffered across chunks. A `data: [DONE]` line split
  over two chunks is missed (`Relay.SplitDoneIsMissed`).
- The save effect runs after the editor mounts as well as on every change
  of the save signal. The signal is state of the app-wide provider
  (app/provider.tsx), so if the provider outlives the editor, an editor
  that mounts after an earlier save sends a save at once, carrying
  whatever the code-update effect has just written.
- Clearing `outline` clears a shorthand, so the save also drops any
  `outline-color`, `outline-style` or `outline-width` of the generated
  markup.
- The save strips only the descendants of the document element. The
  `contenteditable` attribute of a selected element is saved as it is.

## Model

| member | source | states |
|---|---|---|
| Text.ReplaceFirstAt | app/playground/_components/WebsiteDesign.tsx:198 | `replace` with a string pattern replaces exactly the first occurrence by the expanded replacement and keeps the text around it |
| Text.ReplaceFirstMissing | app/playground/_components/WebsiteDesign.tsx:198 | without an occurrence of the pattern, `replace` returns the text unchanged |
| Text.Substitute | app/api/ai-model/route.ts:34 | a replacement string without `$` is inserted as it is |
| Text.RemoveAllSpec | app/playground/_components/WebsiteDesign.tsx:198 | `replaceAll(pat, "")` never lengthens the text and leaves text without the pattern unchanged |
| Text.RemoveAllAt | app/playground/_components/WebsiteDesign.tsx:198 | `replaceAll(pat, "")` works left to right: the text before the first occurrence is kept, that occurrence goes, and removal resumes right after it, so occurrences never overlap |
| Text.TrimSpec | app/api/ai-model/route.ts:73 | `trim` returns a slice of the text that drops only white space at both ends, and a non-empty result starts and ends with a non-space |
| Text.SplitPieces | app/api/ai-model/route.ts:68 | `split` returns at least one piece, and no piece holds the separator |
| Text.SplitJoin | app/api/ai-model/route.ts:68 | joining the pieces of `split` with the separator gives back the text |
| Text.SplitWithoutSep | app/api/ai-model/route.ts:68 | a text without the separator is a single piece |
| Normalize.BodyRegionSpec | app/playground/_components/WebsiteDesign.tsx:192-193 | the body search finds the first `<body`, the first `>` after it and the first `</body>` after that (any case); it reports none exactly when the pattern has no match |
| Normalize.ExtractBodySpec | app/playground/_components/WebsiteDesign.tsx:192-195 | without a `<body…>…</body>` region the code passes through; with one, the result is the text between the `>` closing the first `<body` tag and the next `</body>` |
| Normalize.StripFencesSpec | app/playground/_components/WebsiteDesign.tsx:198 | after both fences are removed, the first remaining `html`, and only it, is removed; without one, nothing more changes |
| Normalize.NoFenceAfterReplaceAll | app/playground/_components/WebsiteDesign.tsx:198 | after the two `replaceAll` calls no three backticks in a row are left |
| Normalize.RemoveFenceLeavesNone | app/playground/_components/WebsiteDesign.tsx:198 | removing every three backticks left to right leaves none, and fewer than three leading backticks are kept |
| Normalize.StripFencesNotIdempotent | app/playground/_components/WebsiteDesign.tsx:198 | a second pass of the strip removes another leading `html` |
| Normalize.StripLeadingHtml | app/playground/_components/WebsiteDesign.tsx:198 | text without backticks loses exactly its leading `html` |
| Normalize.NoBacktickUnfenced | app/playground/_components/WebsiteDesign.tsx:198 | text without backticks has no fence to remove |
| Normalize.Rebased | app/playground/_components/WebsiteDesign.tsx:218-219 | a source starting with `/` (`//host` included) gets the origin in front; an empty, absolute or missing source is unchanged |
| Normalize.RebaseImages | app/playground/_components/WebsiteDesign.tsx:214-221 | the loop over the images rebases each source in place, and the number of images is kept |
| Images.QuotedAtSound | app/playground/_components/WebsiteDesign.tsx:202 | what the quoted matcher finds at a `src=` matches the quoted pattern |
| Images.QuotedAtComplete | app/playground/_components/WebsiteDesign.tsx:202 | every match of the quoted pattern at a `src=` is found there, and it is the one the engine tries first |
| Images.BareAtSound | app/playground/_components/WebsiteDesign.tsx:203 | what the unquoted matcher finds at a `src=` matches the unquoted pattern |
| Images.BareAtComplete | app/playground/_components/WebsiteDesign.tsx:203 | every match of the unquoted pattern at a `src=` is found or beaten by one the engine tries earlier (the brace first, then the longest source) |
| Images.LongestBare | app/playground/_components/WebsiteDesign.tsx:203 | the source capture it settles on starts at the given place, ends within the run of source characters, and is followed by the tail of a self-closing tag |
| Images.TagClose | app/playground/_components/WebsiteDesign.tsx:202-203 | the tail of the tag ends at the first `>` after the capture when a `/` precedes it, and no other end is possible |
| Images.ValueAtSound | app/playground/_components/WebsiteDesign.tsx:202-203 | what either matcher finds at a `src=` matches its pattern |
| Images.ValueAtComplete | app/playground/_components/WebsiteDesign.tsx:202-203 | at a fixed `src=` every match is found or beaten by the one the engine tries first |
| Images.LastAttrSound | app/playground/_components/WebsiteDesign.tsx:202-203 | the greedy `[^>]*` before `src=` settles on a `src=` inside the tag that matches |
| Images.LastAttrComplete | app/playground/_components/WebsiteDesign.tsx:202-203 | every `src=` inside the tag that matches is found or beaten by a later one, which is tried first |
| Images.MatchImageSound | app/playground/_components/WebsiteDesign.tsx:202-203 | a match found at an `<Image` (any case) has the pattern's shape |
| Images.MatchImageComplete | app/playground/_components/WebsiteDesign.tsx:202-203 | no match at a position means the pattern has no match starting there |
| Images.MatchImageCorrect | app/playground/_components/WebsiteDesign.tsx:202-203 | the matcher reports a match at a position exactly when the pattern has one, and it reports the match the engine prefers |
| Images.ShapeEnd | app/playground/_components/WebsiteDesign.tsx:202-203 | a match lies inside the text and ends after its start, so the global scan moves forward |
| Images.RewriteFromUnchanged | app/playground/_components/WebsiteDesign.tsx:202-203 | the global rewrite leaves text without `<image` (any case) unchanged |
| Images.RewriteImagesUnchanged | app/playground/_components/WebsiteDesign.tsx:202-203 | both rewrites leave text without `<image` (any case) unchanged |
| Preview.ClearingSlotsClearsAll | app/playground/_components/WebsiteDesign.tsx:97-104 | in a consistent state, clearing the marks of the two slots leaves no outline and no `contenteditable` |
| Preview.Preview.constructor | app/playground/_components/WebsiteDesign.tsx:56-58 | the freshly written shell has an empty root and no marks |
| Preview.Preview.MouseOver | app/playground/_components/WebsiteDesign.tsx:73-81 | with a selection nothing changes; otherwise the previous hover loses its outline, the target is hovered with a dotted outline and is then the only outlined node |
| Preview.Preview.MouseOut | app/playground/_components/WebsiteDesign.tsx:83-89 | with a selection nothing changes; otherwise the hovered node loses its outline, the slot empties and no outline is left |
| Preview.Preview.Click | app/playground/_components/WebsiteDesign.tsx:91-108 | a previous selection other than the target loses both marks; the target gets the solid outline and `contenteditable`, fills the slot and is reported; afterwards it is the only editable node |
| Preview.Preview.FocusOut | app/playground/_components/WebsiteDesign.tsx:110-133 | with no selection nothing changes; with the flag set, the flag resets and the selection stays; otherwise the selection is cleared exactly when focus left the selected node |
| Preview.Preview.KeyDown | app/playground/_components/WebsiteDesign.tsx:135-142 | Escape with a selection clears its outline, `contenteditable` and slot; any other key, or no selection, changes nothing |
| Preview.Preview.ClearSelection | app/playground/_components/WebsiteDesign.tsx:137-140 | the selected node loses both marks and the slots empty |
| Preview.Preview.MouseDown | app/playground/_components/WebsiteDesign.tsx:235-248 | a mousedown inside the settings panel sets the flag and schedules one more reset; any other mousedown changes nothing |
| Preview.Preview.ResetTimerFires | app/playground/_components/WebsiteDesign.tsx:244-246 | a pending timer fires, clearing the flag whatever mousedowns came after it |
| Preview.Preview.WriteBody | app/playground/_components/WebsiteDesign.tsx:198-221 | the root holds the normalised code, every image source is rebased, and only the shell nodes keep their marks |
| Preview.Preview.ReleaseSlotsAsWritten | app/playground/_components/WebsiteDesign.tsx:185-211 | as written: the selected node loses only its outline, and both slots empty |
| Preview.Preview.ReleaseSlots | app/playground/_components/WebsiteDesign.tsx:185-211 | corrected: both slots' marks are cleared before the slots empty, so no mark is left |
| Preview.Preview.ContentReplacedAsWritten | app/playground/_components/WebsiteDesign.tsx:174-224 | as written: a selected or hovered shell node keeps `contenteditable` or its dotted outline after a code update |
| Preview.Preview.ContentReplaced | app/playground/_components/WebsiteDesign.tsx:174-224 | corrected: the code update writes the normalised body and rebased images, keeps the guard, and leaves no mark and no slot behind |
| Preview.RootStaysEditable | app/playground/_components/WebsiteDesign.tsx:185-189 | selecting the root and then updating the code leaves the root editable with no selection |
| Preview.RootKeepsHoverOutline | app/playground/_components/WebsiteDesign.tsx:211 | hovering the root and then updating the code leaves the root's dotted outline, which the next hover does not clear |
| Preview.CorrectedLeavesNoMark | app/playground/_components/WebsiteDesign.tsx:185-211 | with the corrected update the same two sequences leave no mark |
| Preview.EarlierTimerEndsLaterGuard | app/playground/_components/WebsiteDesign.tsx:241-246 | two guarded mousedowns, then the first timer fires: the next focus-out clears the selection |
| Preview.GuardSparesOneBlur | app/playground/_components/WebsiteDesign.tsx:114-118 | a set flag spares the selection from one focus-out only |
| Save.Stripped | app/playground/_components/WebsiteDesign.tsx:266-267 | an element loses its `outline` declaration together with the `outline-color`, `outline-style` and `outline-width` longhands, and its `cursor` declaration; it keeps its tag, attributes and other declarations |
| Save.StrippedUnmarked | app/playground/_components/WebsiteDesign.tsx:266-267 | an element whose style holds neither `cursor` nor `outline` nor one of its longhands is saved as it is |
| Save.StripAll | app/playground/_components/WebsiteDesign.tsx:265-268 | every element of the sequence is stripped, and the number of elements is kept |
| Save.SavedCopyClean | app/playground/_components/WebsiteDesign.tsx:261-270 | no descendant of the copy carries `cursor`, `outline` or one of the three `outline` longhands; every other declaration, tag and attribute is the document's, and the document element keeps its own style |
| Save.SavedCopyIdempotent | app/playground/_components/WebsiteDesign.tsx:261-268 | saving a saved copy again changes nothing |
| Save.StrippedClone | app/playground/_components/WebsiteDesign.tsx:261-268 | the clone-and-strip loop yields the saved copy and writes only into the clone it allocates |
| Save.OnSaveSignal | app/playground/_components/WebsiteDesign.tsx:226-278 | one run of the effect: a request is built exactly when the signal is truthy and the iframe's document exists, and it carries the serialised saved copy and the frame and project ids |
| Messages.BuildMessages | app/api/ai-model/route.ts:12-38 | given messages are forwarded; without them, a result exists exactly when the input is non-empty; non-empty existing code gives system, user and assistant messages; otherwise system and user messages |
| Messages.StripLeadingFenceSpec | app/api/ai-model/route.ts:28 | code starting with three backticks loses the whole run of backticks, the word after it and one optional newline; other code is unchanged |
| Messages.StripHtmlFence | app/api/ai-model/route.ts:28 | code wrapped as "```html" and a newline loses exactly that opening |
| Messages.DoubledClosingFence | app/api/ai-model/route.ts:28 | fully fenced existing code ends up with a doubled closing fence |
| Messages.UnfencedCodeVerbatim | app/api/ai-model/route.ts:28 | code that does not start with three backticks is wrapped verbatim |
| Messages.ReplaceModeIgnored | app/api/ai-model/route.ts:17 | `replaceMode` never affects the messages |
| Messages.FreshSystemPrompt | app/api/ai-model/route.ts:32-34 | a given system prompt, an empty one included, is used with its first placeholder replaced |
| Messages.DefaultPlaceholder | app/api/ai-model/route.ts:32 | the first `{userInput}` of the default template is the one after its head |
| Messages.FreshDefaultPrompt | app/api/ai-model/route.ts:32-34 | without a system prompt and with an input holding no `$`, the default template gets the input in place of its placeholder |
| Messages.DollarAmpersandKeepsPlaceholder | app/api/ai-model/route.ts:34 | an input of `$&` leaves the default template unchanged |
| Relay.PayloadAfterPrefix | app/api/ai-model/route.ts:73 | the payload of an event line is the trimmed text after its `data:` prefix |
| Relay.CallsOfShape | app/api/ai-model/route.ts:70-90 | only non-empty text is enqueued before a close, and the loop ends early exactly when it closes |
| Relay.ChunkCallsShape | app/api/ai-model/route.ts:70-90 | for the lines of a chunk, only non-empty text is enqueued before a close, and a close comes last |
| Relay.CallsOfAppend | app/api/ai-model/route.ts:70-90 | events are handled in order, and nothing after a close counts |
| Relay.ChunkCallsAppend | app/api/ai-model/route.ts:70-90 | the lines of a chunk are handled in order, and nothing after a `[DONE]` counts |
| Relay.SkippedLineDropped | app/api/ai-model/route.ts:71 | a line that is not an event line, that does not parse or that has no text changes nothing |
| Relay.DoneDropsRest | app/api/ai-model/route.ts:75-79 | `[DONE]` closes the stream and drops the rest of the chunk |
| Relay.EventsText | app/api/ai-model/route.ts:84 | a text event never carries empty text |
| Relay.StreamRelay.constructor | app/api/ai-model/route.ts:61 | the relay starts open with no calls |
| Relay.StreamRelay.OnLine | app/api/ai-model/route.ts:71-89 | one line of an open stream: a `[DONE]` payload closes it, non-empty text is enqueued, anything else changes nothing |
| Relay.StreamRelay.OnLines | app/api/ai-model/route.ts:70-90 | the loop over the lines makes exactly the calls of the lines' events |
| Relay.StreamRelay.OnData | app/api/ai-model/route.ts:65-91 | a chunk on a closed stream changes nothing; otherwise its lines make their calls, and the calls keep their shape |
| Relay.StreamRelay.OnEnd | app/api/ai-model/route.ts:93-98 | the end closes an open stream once and leaves a closed one alone |
| Relay.StreamRelay.OnError | app/api/ai-model/route.ts:100-105 | an error fails an open stream once and leaves a closed one alone |
| Relay.SplitDoneIsMissed | app/api/ai-model/route.ts:68 | a `data: [DONE]` line split over two chunks closes nothing and sends nothing |

## Left out

- The iframe bootstrap (WebsiteDesign.tsx:51-170 apart from the handlers) is not modelled: writing the shell document, injecting `<base>`, and attaching and removing listeners. The constructor of `Preview.Preview` stands for the written shell.
- The mount guards of the code-update effect (WebsiteDesign.tsx:175-180) are not modelled. A missing iframe, document or root makes the effect do nothing.
- `generatedCode ?? ""` (line 182) is not modelled: the code is always a string.
- DOM parsing by `innerHTML` is not modelled. The sources of the parsed `img` elements are a parameter of the update, and the nodes of the preview are abstract ids: the shell's nodes and the root's content nodes.
- `cloneNode` and `outerHTML` are not modelled. The document is a root element with its descendants in document order, and serialisation is a parameter.
- Focus and its side events (`focus()` at line 105), `console.log`, `toast` and `preventDefault` are not modelled. The element focused after a focus-out is a parameter.
- The state update `setSelectedElement` takes effect at once in the model. React applies it at the next render.
- Real timers are replaced by an explicit timer event that only counts the pending timers. `composedPath`/`contains` (lines 239-240) become a boolean "clicked inside".
- The network is not modelled: the axios PUT (lines 274-278), the forwarding of the messages to the model service (route.ts:40-56), the response object, and the logging of failures (WebsiteDesign.tsx:287-289, route.ts:115-121).
- `JSON.parse(payload).choices?.[0]?.delta?.content` (route.ts:82-83) is a parameter `extract`: a parse failure and a missing field are both `None`.
- Content that is a truthy non-string is not modelled. `TextEncoder` (route.ts:85) is not modelled either: the enqueued text stays a string.
- Save.OnSaveSignal: models one run of the save effect; when React runs it (after mount and on each change of the signal) is not modelled, because effect scheduling is part of React, not of the code.
- Messages.BuildMessages: `messages` is either absent or a list, and `userInput`, `existingCode` and `system` are strings or absent. A request body that puts other JSON values in these fields is not modelled.
- Strings are sequences of Unicode characters, not of UTF-16 code units, so characters outside the Basic Multilingual Plane count as one position. Case folding covers ASCII letters, which is exact for the patterns used here.
- The settings panels, the image settings, and the other UI files are not part of this model: the sidebar, the hero, the chat section, the headers, the provider (apart from the fact that the save signal starts as null and is set to `Date.now()` when Save is pressed), and the theme context.

## Findings

| source | as written | input that shows it | evidently intended | confidence | as-written member | corrected member |
|---|---|---|---|---|---|---|
| app/playground/_components/WebsiteDesign.tsx:185-189 | before new code is written, the selected node loses its outline but keeps `contenteditable="true"` | click the body (the root) in the preview, then let new code arrive: the root stays editable with nothing selected, and a later save stores it that way | release the selection the way Escape and focus-out do, by removing `contenteditable` too | not executed | Preview.RootStaysEditable | Preview.Preview.ContentReplaced |
| app/playground/_components/WebsiteDesign.tsx:211 | the hover slot is emptied without clearing the hovered node's dotted outline | hover the body (the root), let new code arrive, then hover a content element: the root keeps its dotted outline, since the next hover no longer knows it | clear the hover outline before dropping the reference, as mouseout does | not executed | Preview.RootKeepsHoverOutline | Preview.Preview.ContentReplaced |
