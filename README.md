# Chat message formatting and transcript model

This project models the two pieces of a browser chat client for a
retrieval-augmented-generation service that hold actual logic. Both are in
Dafny, with their properties proved.

- **Message formatter** (`src/components/ChatViewFormatter.jsx`):
  - the loop that cuts an assistant message into text parts and code parts with
    the global fence regex ``/```(\w+)?\n([\s\S]*?)```/g``;
  - the code-part record (`code-N` id, type, body, language, `snippet.<language>`
    name);
  - the MIME type a download gets;
  - the choice between highlighted and escaped code;
  - the `<img>` serializer.
- **Chat view** (`src/components/Chat.jsx`): the transcript state machine.
  - Sending a question appends the user's message and one answer or error.
  - The session id moves when the backend announces a new one.
  - History loading maps stored messages onto transcript messages.
  - With no session, the transcript resets to the greeting.
  - Enter without Shift sends.

Modules, one file each:

| file | module | contents |
|---|---|---|
| `wrappers.dfy` | `Wrappers` | `Option` |
| `js_string.dfy` | `JsString` | ECMAScript `trim()` white space, `\w` characters, decimal rendering of a counter |
| `fence_regex.dfy` | `FenceRegex` | the fence regex as a declarative predicate `IsFenceAt`, and `Exec`, the leftmost match from a `lastIndex` |
| `segmenter.dfy` | `Segmenter` | see below |
| `segment_examples.dfy` | `SegmentExamples` | concrete messages and their exact parts |
| `assets.dfy` | `Assets` | MIME choice, download, highlight fallback, `<img>` tag and a reader for it |
| `chat.dfy` | `Chat` | reply, session and history rules, and the `ChatPanel` class |

`segmenter.dfy` holds:
- the specification `Segments`, built from `Layout`, the message cut at the successive matches, and `Render`, the parts made of those pieces;
- the imperative scanning loop `Segment`, proved equal to `Segments`;
- the lemmas about `Segments`.

How the regex is read:
- `(\w+)?` is greedy and a newline must follow it. So the tag is either nothing or the whole run of word characters after the opening backticks.
- The lazy body ends at the first three backticks at or after the body's start.
- The opening backticks need not begin a line.

## Model

| member | source | states |
|---|---|---|
| Segmenter.Segment | src/components/ChatViewFormatter.jsx:325-362 | the loop over `exec` with `lastIndex` and `codeBlockIndex` returns exactly `Segments(content)`: leftmost matches in order, non-blank gaps before fences, the trailing remainder, numbered code records |
| Segmenter.SegmentsWithoutFence | src/components/ChatViewFormatter.jsx:335-359 | with no complete fence (an unterminated opener included) an empty message has no parts and any other message is one text part equal to the whole message, even if it is all white space |
| Segmenter.SegmentsHaveCodeIffFence | src/components/ChatViewFormatter.jsx:330-335 | a message yields a code part if and only if some complete fence occurs in it |
| Segmenter.SegmentsLossless | src/components/ChatViewFormatter.jsx:336-341 | gaps and matched fence texts concatenate back to the message; every match is a fence of the message, in order and without overlap; parts keep every match as a code record and every gap verbatim, except that a white-space gap that a match follows may be absent (`SegmentsDropBlankGaps` says it always is) |
| Segmenter.SegmentsDropBlankGaps | src/components/ChatViewFormatter.jsx:336-341 | a text part that is only white space is always the last part, so white space before or between fences never becomes a part |
| Segmenter.SegmentsWellFormed | src/components/ChatViewFormatter.jsx:336-359 | two text parts are never adjacent and no text part is empty |
| Segmenter.SegmentsKeepTrailingText | src/components/ChatViewFormatter.jsx:357-359 | no fence starts after the last match; the text after it is always the last part even if only white space; otherwise the parts end with a code part |
| Segmenter.SegmentsCodeParts | src/components/ChatViewFormatter.jsx:343-352 | the i-th code part comes from the i-th match: its span is three backticks, the optional tag, a newline, the body and three backticks; id `code-i`, type "code", content the exact untrimmed body with no triple backtick inside, language the tag or "text", name `snippet.` plus the language |
| Segmenter.SegmentsCodeIdsDistinct | src/components/ChatViewFormatter.jsx:347 | code-part ids are pairwise distinct |
| Segmenter.LayoutJoin | src/components/ChatViewFormatter.jsx:337-358 | the pieces the scanner cuts from a position concatenate to the rest of the message |
| Segmenter.LayoutFences | src/components/ChatViewFormatter.jsx:335-354 | the matches found from a position are real fences, each starting at or after the end of the previous one |
| Segmenter.LayoutCovers | src/components/ChatViewFormatter.jsx:335-354 | every fence of the message at or after a position starts inside the span of a found match, so no fence is skipped |
| Segmenter.RenderCodes | src/components/ChatViewFormatter.jsx:333-352 | rendering numbers the code records consecutively from the counter, one per match, in order |
| Segmenter.RenderWellFormed | src/components/ChatViewFormatter.jsx:336-341 | from a well-laid layout, rendering never yields two adjacent or empty text parts |
| Segmenter.RenderTail | src/components/ChatViewFormatter.jsx:357-359 | the last piece of a layout decides the last part: trailing text when any remains, else a code record |
| FenceRegex.MatchAt | src/components/ChatViewFormatter.jsx:330 | the regex at one position succeeds exactly with the unique fence starting there: maximal word-run tag, newline, body up to the first closing triple |
| FenceRegex.Exec | src/components/ChatViewFormatter.jsx:335 | `exec` from `lastIndex` returns the leftmost fence at or after it, or nothing exactly when no fence starts at or after it |
| FenceRegex.FenceUnique | src/components/ChatViewFormatter.jsx:330 | at most one fence starts at any position |
| FenceRegex.ExecFinds | src/components/ChatViewFormatter.jsx:335 | when no fence starts between `lastIndex` and a fence, `exec` finds that fence |
| FenceRegex.BodyHasNoTriple | src/components/ChatViewFormatter.jsx:330 | a fence's body never holds three consecutive backticks |
| FenceRegex.RawAt | src/components/ChatViewFormatter.jsx:354 | the text the match covers is backticks, tag, newline, body and backticks, which is what advances `lastIndex` |
| FenceRegex.ExecNoneWithoutBacktick | src/components/ChatViewFormatter.jsx:335 | text without a backtick has no match |
| FenceRegex.WordRunEnd | src/components/ChatViewFormatter.jsx:330 | the greedy `\w+` run ends at the first non-word character |
| FenceRegex.FindTriple | src/components/ChatViewFormatter.jsx:330 | the lazy body stops at the first triple backtick at or after the body start |
| JsString.TrimEmptyIffBlank | src/components/ChatViewFormatter.jsx:338 | `trim()` gives the empty string exactly when every character is ECMAScript white space or a line terminator |
| JsString.TrimStart | src/components/ChatViewFormatter.jsx:338 | the result is a suffix whose removed prefix is white space and whose first character is not |
| JsString.TrimEnd | src/components/ChatViewFormatter.jsx:338 | the result is a prefix whose removed suffix is white space and whose last character is not |
| JsString.NatToString | src/components/ChatViewFormatter.jsx:347 | the rendering of the counter is non-empty and made of decimal digits |
| JsString.DecimalRoundTrip | src/components/ChatViewFormatter.jsx:347 | reading the decimal text of the counter gives the counter back |
| JsString.NatToStringInjective | src/components/ChatViewFormatter.jsx:347 | distinct counters render as distinct texts |
| SegmentExamples.PlainText | src/components/ChatViewFormatter.jsx:357-359 | a message without backticks is one text part |
| SegmentExamples.BlankMessage | src/components/ChatViewFormatter.jsx:357-359 | a white-space-only message is still one text part |
| SegmentExamples.UnterminatedFence | src/components/ChatViewFormatter.jsx:335-359 | an opening fence with no closing backticks yields the whole message as text |
| SegmentExamples.FenceBetweenText | src/components/ChatViewFormatter.jsx:336-358 | text, a `js` fence and text give exactly text, the `code-0` record with `snippet.js`, text |
| SegmentExamples.FourBackticks | src/components/ChatViewFormatter.jsx:330-341 | four opening backticks leave the first one as a text part and match from the second |
| SegmentExamples.BlankAroundFence | src/components/ChatViewFormatter.jsx:336-358 | blank text before a fence is dropped and blank text after it is kept; an untagged fence gets language "text" |
| SegmentExamples.FirstCloseWins | src/components/ChatViewFormatter.jsx:330 | in "a" followed by five backticks the body is "a" and the last two backticks are trailing text |
| Assets.DownloadMime | src/components/ChatViewFormatter.jsx:166-172 | "image" gives `image/png`, "code" gives `text/plain`, every other type `text/markdown` |
| Assets.DownloadOf | src/components/ChatViewFormatter.jsx:166-178 | a download carries the asset's name, its content and the MIME type its type selects |
| Assets.SegmentedCodeDownloads | src/components/ChatViewFormatter.jsx:166-178 | every code part of a message downloads as `text/plain`, named `snippet.<language>`, with the exact fence body as contents |
| Assets.HighlightedContent | src/components/ChatViewFormatter.jsx:265-278 | highlighter output when the language is non-empty, registered and highlighting does not throw; the escaped code in every other case |
| Assets.UnknownLanguageEscapes | src/components/ChatViewFormatter.jsx:265-278 | a code part whose language is not registered renders as the escaped fence body |
| Assets.AttrIndex | src/components/ChatViewFormatter.jsx:133-134 | the index of the first attribute with the name, or -1 when there is none |
| Assets.ImageTagAttributes | src/components/ChatViewFormatter.jsx:131-143 | reading the emitted tag back gives exactly: `src` (empty when absent), `alt` (the token content) and a `title` present if and only if the title is non-empty, each escaped; this holds whenever escaping removes double quotes |
| Assets.ImageTagSpelling | src/components/ChatViewFormatter.jsx:138-142 | the emitted tag is `<img src="…" alt="…"` followed by ` title="…" />` when the title is non-empty and by `  />` otherwise, each value escaped |
| Assets.ReadQuoted | src/components/ChatViewFormatter.jsx:138-142 | part of the independent reader of the emitted tag, used to check the serializer: it splits at the first double quote, or fails exactly when there is none |
| Assets.ReadQuotedOf | src/components/ChatViewFormatter.jsx:138-142 | independent reader of the emitted tag: a quote-free attribute value followed by its closing quote reads back as that value |
| Chat.AiReply | src/components/Chat.jsx:98-119 | the appended reply is an AI message, flagged as an error exactly on a thrown failure or `status` "error" |
| Chat.AiReplyContents | src/components/Chat.jsx:98-119 | an error reply is exactly `{ai, message, isError}` with an absent message giving ""; a successful reply is never empty, shows `respuesta_ia` when truthy and the fallback otherwise, with `fuentes` and `provider` |
| Chat.NextSessionId | src/components/Chat.jsx:98-103 | the session id changes only to a truthy `session_id` of a non-error response that differs from the current id |
| Chat.NextSessionIdSettles | src/components/Chat.jsx:98-103 | an error never moves the session, and applying the same response twice moves it no further than once |
| Chat.AfterSendAppends | src/components/Chat.jsx:75-119 | blank input leaves the transcript alone; otherwise earlier messages stay, then come exactly the verbatim user message and one AI message, an error exactly when the outcome failed |
| Chat.FromHistoryPointwise | src/components/Chat.jsx:37-41 | history conversion keeps length and order; role "user" stays user and every other role becomes AI; content and provider are copied |
| Chat.HistoryRoundTrip | src/components/Chat.jsx:37-41 | a transcript without sources or error flags, stored as entries and converted back, is unchanged |
| Chat.AfterHistoryReplacesOnlyOnSuccess | src/components/Chat.jsx:33-43 | a non-ok, non-array or thrown history response leaves the transcript unchanged; a successful one replaces it with as many messages as entries |
| Chat.RoleOf | src/components/Chat.jsx:38 | a message is a user message exactly when the stored role is "user" |
| Chat.WellFormedSteps | src/components/Chat.jsx:17-22 | sends, history loads and the greeting reset keep the transcript invariant: only AI messages are errors and user messages carry no sources |
| Chat.ShouldSendOnlyPlainEnter | src/components/Chat.jsx:125-129 | only Enter triggers a send; Enter without Shift sends and Shift+Enter does not |
| Chat.ChatPanel.constructor | src/components/Chat.jsx:5-9 | an empty transcript and text box, not loading, provider "gemini", with the session id and token given by the parent |
| Chat.ChatPanel.HandleSend | src/components/Chat.jsx:74-123 | blank input changes nothing and sends nothing; otherwise the request carries the input, provider and session id, the transcript becomes `AfterSend`, the text box is cleared, loading ends false and the session id becomes `NextSessionId` |
| Chat.ChatPanel.Exchange | src/components/Chat.jsx:77-122 | a non-blank send appends the user message and exactly one reply, sends input, provider and session id, clears the box, ends not loading and moves the session by `NextSessionId`; provider and token are unchanged |
| Chat.ChatPanel.FetchHistory | src/components/Chat.jsx:26-50 | a falsy id returns at once; otherwise the transcript becomes `AfterHistory` and loading ends false; nothing else changes |
| Chat.ChatPanel.OnSessionChange | src/components/Chat.jsx:14-24 | with a session id and an access token the history is loaded; otherwise the transcript is exactly the greeting |
| Chat.ChatPanel.HandleKeyDown | src/components/Chat.jsx:125-130 | Enter without Shift prevents the default and sends: the transcript becomes `AfterSend`, a blank input sends nothing and leaves the box, loading and session alone, any other input sends the input, provider and session id, clears the box, ends not loading and moves the session by `NextSessionId`; any other key changes nothing |

## Left out

- markdown-it rendering, Prism and DOMPurify are foreign libraries. The highlighter, its language registry and the HTML escape function are parameters, and the sanitizer is not modelled.
- Side effects in the DOM and the browser are not modelled: style injection, clipboard writes, the Blob/URL/anchor mechanics of a download, the edit stub, auto-scrolling and the document-wide click listener. A download is modelled as the name, MIME type and content it hands over.
- `fetch` is not modelled. Every response is an input value: a parsed body or a thrown error for a send; an `ok` flag with an array or non-array body, or a thrown error, for history. JSON fields with non-string values are not modelled.
- `handleSend` never looks at `res.ok`. A non-ok response whose body lacks `status: "error"` is treated like any other success, and the model keeps that behaviour.
- Chat.ChatPanel.HandleSend: the send runs as one atomic step. The window where `loading` is true, and a response arriving after the session has changed (appended anyway through the functional updater), are not modelled.
- After a send moves the session id, the parent re-runs the session effect. That follow-up load is a separate `OnSessionChange` call and is not chained into `HandleSend`.
- The disabled state of the send button and the provider dropdown are view chrome and are not modelled.
- Assets.ImageTagAttributes: it requires escaped values to hold no double quote. The real escape function guarantees this, but here it is a parameter.
- Strings are sequences of characters. JavaScript's UTF-16 code-unit indexing differs only for characters outside the Basic Multilingual Plane, and that difference is not modelled.
- The other components (upload form, API-key panel, sidebar, authentication, file preview, application shell) and the configuration files are not part of this model.
