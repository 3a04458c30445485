# Style injection in the streaming SSR handler

This project models the one piece of logic in the server entry of a React
Router application styled with Fluent UI, `app/entry.server.tsx`:

- the **insertion marker** `<meta name="fluentui-insertion-point" content="fluentui-insertion-point"/>`
  and the regular expression built from it by turning every space into `(\s)*`;
- the **body transform**: each chunk the renderer writes is checked for the
  marker, the first chunk that has one gets its first marker replaced by the
  canonical tag followed by the style markup collected so far, and a flag
  (`isStyleExtracted`) then lets every later chunk through untouched;
- the **handler around the render**: the choice between waiting for the
  whole tree (`onAllReady`, for bots and SPA mode) and streaming from the
  shell (`onShellReady`), and the ready, shell-error and error callbacks that
  settle the response promise, force the status code to 500 and decide which
  errors are logged.

Modules, one per concern of the source file:

- `Wrappers` (wrappers.dfy): `Option`.
- `Marker` (marker.dfy): the tag, JavaScript's `\s`, the pattern (`Compile`),
  a backtracking matcher for it with greedy gaps and capture groups
  (`MatchPrefix`, `TryGap`), the leftmost search of `test`/`exec`
  (`SearchFrom`, `Exec`, `Matches`, `HasMarker`), and the declarative reading
  `IsVariant` ("the tag with every space replaced by a whitespace run"),
  proved equal to the matcher.
- `Substitution` (substitution.dfy): `String.prototype.replace` with a string
  template as the source calls it (`ReplaceAsWritten`, using ECMA-262
  GetSubstitution, `Expand`), and the literal replacement (`ReplaceFirst`)
  used by the rest of the model; see Findings.
- `StyleInjection` (style_injection.dfy): the transformed body as a function of
  the chunks (`Stream`), the transform stage as a class with the
  `isStyleExtracted` field (`StyleInjector.Transform`), and `Pipe`, which feeds
  it a sequence of chunks.
- `Handler` (handler.dfy): `ChooseReadyOption`, renderer events as a trace, the
  handler state machine (`Step`, `Run`), the class `RequestHandler` whose
  fields are the closure variables `shellRendered`, `responseStatusCode`,
  the response headers and the promise's state, and `HandleRequest`, which
  replays a trace.

Inputs that come from code the model cannot see are parameters: the style
markup rendered for each chunk (`Flush.style`), the bot classifier
(`isBot: string -> bool`), the SPA-mode flag, the caller's status code and
headers, and the order in which the renderer calls the callbacks (the
`RenderEvent` trace).

## Model

| member | source | states |
|---|---|---|
| `Marker.IsJsWhitespace` | app/entry.server.tsx:22 | The code points of `\s`: WhiteSpace and LineTerminator. No contract of its own; the matcher's lemmas (`WhitespaceRun`, `MatchPrefixIffVariant`) are stated over it. |
| `Marker.Compile` | app/entry.server.tsx:21-23 | The pattern has one element per tag character: a whitespace gap at every space, that character literally everywhere else. |
| `Marker.WhitespaceRun` | app/entry.server.tsx:22 | The greedy `(\s)*` starts from the longest run of `\s` characters: all of it is whitespace and the next character is not. |
| `Marker.MatchPrefix` | app/entry.server.tsx:21-23 | A match at a fixed start never runs past the text and yields one capture per gap. |
| `Marker.TryGap` | app/entry.server.tsx:22 | The greedy group `(\s)*` backing off one character at a time; a match it returns stays inside the text and records one more capture. Characterised by `GapTakesMaximalRun` and `TryGapBelowRun`. |
| `Marker.SearchFrom` | app/entry.server.tsx:70-71 | A match the search returns lies inside the text, at or after the start position, and is the match the pattern makes there. |
| `Marker.SearchFromIsLeftmost` | app/entry.server.tsx:70-71 | No position before the returned one matches; with no result, no position from the start on matches. |
| `Marker.MatchPrefixIffVariant` | app/entry.server.tsx:21-23 | For a tag whose spaces are followed by non-whitespace, the match at the start of a text has length n exactly when the first n characters are the tag with each space replaced by some whitespace run, possibly empty. |
| `Marker.LiteralStepIffVariant` | app/entry.server.tsx:21-23 | The same equivalence for a tag that begins with a literal character: that character must come first. |
| `Marker.GapStepIffVariant` | app/entry.server.tsx:21-23 | The same equivalence for a tag that begins with a space: the gap takes the maximal run, then the rest of the tag must match. |
| `Marker.GapVariantSplit` | app/entry.server.tsx:21-23 | A variant of a tag that begins with a space is the maximal whitespace run followed by a variant of the rest of the tag. |
| `Marker.MatchAtIffVariantAt` | app/entry.server.tsx:21-23 | The same equivalence at any start position of a text. |
| `Marker.TryGapBelowRun` | app/entry.server.tsx:22 | A gap followed by a non-whitespace literal cannot end inside a whitespace run, so backing off never succeeds. |
| `Marker.GapTakesMaximalRun` | app/entry.server.tsx:22 | Such a gap consumes exactly the maximal whitespace run. |
| `Marker.RunIsMaximal` | app/entry.server.tsx:22 | A whitespace run followed by a non-whitespace character is the maximal run. |
| `Marker.InsertionPointTagWellSeparated` | app/entry.server.tsx:20 | Both spaces of the insertion-point tag are followed by non-whitespace characters, so its match is unique at each start. |
| `Marker.JoinedPiecesWellSeparated` | app/entry.server.tsx:20 | Space-free pieces joined by single spaces, each later piece starting with non-whitespace, form a well-separated tag. |
| `Marker.Exec` | app/entry.server.tsx:70-71 | `exec` without the `g` or `y` flag: the search from position 0. No contract of its own; characterised by `ExecFindsLeftmostVariant`. |
| `Marker.Matches` | app/entry.server.tsx:70 | `test` for a tag's pattern. No contract of its own; characterised by `MatchesIffSomeVariant`. |
| `Marker.HasMarker` | app/entry.server.tsx:70 | `FLUENT_UI_INSERTION_TAG_REGEX.test(str)`. No contract of its own; characterised by `MatchesIffSomeVariant`, `ReformattedTagMatches` and `SplitMarkerIsNotFound`. |
| `Marker.ExecFindsLeftmostVariant` | app/entry.server.tsx:70-71 | `exec` returns a slice that is a whitespace variant of the tag, and no variant starts earlier; with no result, no slice is a variant. |
| `Marker.MatchesIffSomeVariant` | app/entry.server.tsx:70 | `test` is true exactly when some slice of the chunk is a whitespace variant of the tag. |
| `Marker.TagIsOwnVariant` | app/entry.server.tsx:20-23 | The canonical tag is a variant of itself. |
| `Marker.TagMatchesItself` | app/entry.server.tsx:20-23 | Any text containing the canonical tag is matched. |
| `Marker.ExecFindsTagAtStart` | app/entry.server.tsx:20-23 | In text that starts with the tag, the match starts at 0 and covers exactly the tag. |
| `Marker.ExecFindsWholeTag` | app/entry.server.tsx:20-23 | Text that is exactly the tag is matched from position 0 to its end. |
| `Marker.VariantAppendLiteral` | app/entry.server.tsx:21-23 | Characters other than spaces are matched literally: a space-free piece in front of a variant extends it unchanged. |
| `Marker.VariantPrependGap` | app/entry.server.tsx:21-23 | At a space position, any whitespace run is accepted, including an empty one. |
| `Marker.JoinedPiecesVariant` | app/entry.server.tsx:21-23 | Space-free pieces joined by arbitrary whitespace runs are a variant of the pieces joined by spaces. |
| `Marker.ReformattedTagMatches` | app/entry.server.tsx:21-23 | The tag with its first space widened to a line feed and a tab, and its second space removed, is still a marker. |
| `Marker.VariantLength` | app/entry.server.tsx:21-23 | Every variant is at least as long as the tag without its spaces. |
| `Marker.NonSpaceCountAppend` | app/entry.server.tsx:20 | The non-space count of a concatenation is the sum of the counts of its parts. |
| `Marker.NonSpaceCountOfSpaceFree` | app/entry.server.tsx:20 | A space-free string counts all of its characters. |
| `Marker.JoinedPiecesNonSpaceCount` | app/entry.server.tsx:20 | Three space-free pieces joined by two spaces count the pieces' lengths. |
| `Marker.InsertionPointTagNonSpaceCount` | app/entry.server.tsx:20 | The insertion-point tag has 74 characters, 72 of them not spaces. |
| `Marker.ShortTextDoesNotMatch` | app/entry.server.tsx:70 | A chunk shorter than the tag without its spaces cannot contain a marker. |
| `Marker.SplitMarkerIsNotFound` | app/entry.server.tsx:67-70 | The tag cut at its second space gives two chunks, neither of which holds a marker, though joined they are the tag. |
| `Substitution.Expand` | app/entry.server.tsx:71 | GetSubstitution of ECMA-262 for a string template. No contract of its own; characterised by `ExpandLiteralPrefix`, `DollarFreeTemplateIsLiteral` and `ExpandMatchedText`. |
| `Substitution.ReplaceAsWritten` | app/entry.server.tsx:71 | Line 71 as written. No contract of its own; characterised by `AsWrittenAgreesWithoutDollar` and `DollarAmpersandRepeatsMarker`. |
| `Substitution.ReplaceFirst` | app/entry.server.tsx:71 | Line 71 with the styles inserted literally. No contract of its own; characterised by `ReplaceFirstReplacesLeftmostVariant`. |
| `Substitution.ReplaceFirstReplacesLeftmostVariant` | app/entry.server.tsx:71 | Literal replacement changes only the leftmost whitespace variant of the tag and keeps the text before and after it exactly; without a marker it changes nothing. |
| `Substitution.ExpandLiteralPrefix` | app/entry.server.tsx:71 | In a replacement template, text without `$` is copied as it is. |
| `Substitution.DollarFreeTemplateIsLiteral` | app/entry.server.tsx:71 | A replacement template without `$` is inserted verbatim. |
| `Substitution.ExpandMatchedText` | app/entry.server.tsx:71 | The template `$&` stands for the matched text. |
| `Substitution.AsWrittenAgreesWithoutDollar` | app/entry.server.tsx:71 | When the styles contain no `$`, the source's `replace` call and the literal replacement give the same chunk. |
| `Substitution.NoDollarInTag` | app/entry.server.tsx:20 | The insertion-point tag holds no `$`. |
| `Substitution.DollarFreeReplacementsAgree` | app/entry.server.tsx:71 | When a replacement template has no `$`, the `replace` call as written and the literal replacement give the same text. |
| `Substitution.WholeTextMatch` | app/entry.server.tsx:71 | When the match covers the whole text, the text before and after it are empty: the source's call gives the expanded template, and the literal replacement gives the replacement. |
| `Substitution.DollarAmpersandRepeatsMarker` | app/entry.server.tsx:71 | With the styles `$&`, the source's call emits the tag twice, while the literal replacement emits the tag followed by `$&`. |
| `StyleInjection.Injected` | app/entry.server.tsx:70-71 | One rewritten chunk, with literal insertion. No contract of its own; characterised by `InjectedChunkShape`. |
| `StyleInjection.Emit` | app/entry.server.tsx:70-75 | What one call of the transform emits given the flag. No contract of its own; characterised by `StreamAppend` and `StyleInjector.Transform`. |
| `StyleInjection.Stream` | app/entry.server.tsx:66-76 | The transformed body has exactly as many chunks as the renderer wrote; contents by `StreamRewritesOnlyFirstMarked`. Literal insertion; equals line 71 as written when the styles hold no `$` (`AsWrittenAgreesWithoutDollar`). |
| `StyleInjection.FirstMarked` | app/entry.server.tsx:70 | Gives the earliest chunk with a marker: that chunk has one and none before it does; with no result, no chunk has one. |
| `StyleInjection.StreamAfterExtractionIsIdentity` | app/entry.server.tsx:70-75 | Once the flag is set, every chunk is emitted unchanged, even one that holds a marker. |
| `StyleInjection.StreamRewritesOnlyFirstMarked` | app/entry.server.tsx:66-76 | Chunk for chunk and in order, the output equals the input, except that the earliest chunk holding a marker gets the styles injected. |
| `StyleInjection.AtMostOneChunkChanges` | app/entry.server.tsx:70-72 | Of any two output chunks, at least one is identical to its input: at most one substitution per response. |
| `StyleInjection.UnmarkedBodyIsUnchanged` | app/entry.server.tsx:70-75 | If no single chunk holds a marker, the body passes through exactly. |
| `StyleInjection.InjectedChunkShape` | app/entry.server.tsx:68-71 | The rewritten chunk is the text before the leftmost marker, then the canonical tag, then the styles, then the rest of the chunk unchanged. A whitespace variant is normalised to the canonical tag, and the result still holds a marker. Literal insertion; equals line 71 as written when the styles hold no `$` (`AsWrittenAgreesWithoutDollar`). |
| `StyleInjection.LeftmostMarker` | app/entry.server.tsx:70-71 | In a chunk with a marker, the match `exec` finds is the leftmost whitespace variant of the tag. |
| `StyleInjection.InjectedAtMatch` | app/entry.server.tsx:71 | The rewritten chunk is the text before that match, the canonical tag, the styles, and the text after the match. |
| `StyleInjection.InsertedTagIsMarker` | app/entry.server.tsx:70 | Text containing the canonical tag holds a marker. |
| `StyleInjection.CanonicalChunkInjected` | app/entry.server.tsx:70-71 | A chunk that is exactly the canonical tag holds a marker and is rewritten to the tag followed by the styles. |
| `StyleInjection.RepeatedMarkerInjectedOnce` | app/entry.server.tsx:70-72 | Two chunks that both are the canonical tag come out as the tag plus the styles, then the unchanged tag. |
| `StyleInjection.SplitMarkerPassesThrough` | app/entry.server.tsx:67-70 | A marker split across two chunks is not found, and both chunks pass through unchanged. |
| `StyleInjection.StreamAppend` | app/entry.server.tsx:66-76 | One more chunk appends exactly what the transform emits for it, given the flag left by the earlier chunks. |
| `StyleInjection.FirstMarkedAppend` | app/entry.server.tsx:72 | Once some chunk has had a marker, that stays true, whatever chunks follow. |
| `StyleInjection.StyleInjector.constructor` | app/entry.server.tsx:40 | A new transform stage starts with the flag cleared and no chunks seen. |
| `StyleInjection.StyleInjector.Transform` | app/entry.server.tsx:66-76 | With the flag clear and a marker in the chunk, the marker is replaced and the flag is set; otherwise the chunk passes through. The flag becomes old flag or marker found. The class invariant ties the outputs so far to `Stream`. Literal insertion; equals line 71 as written when the styles hold no `$` (`AsWrittenAgreesWithoutDollar`). |
| `StyleInjection.Pipe` | app/entry.server.tsx:64-89 | A fresh stage fed every chunk in order emits `Stream` of them: one output per input, and only the earliest chunk with a marker is rewritten. Literal insertion; equals line 71 as written when the styles hold no `$` (`AsWrittenAgreesWithoutDollar`). |
| `Handler.ChooseReadyOption` | app/entry.server.tsx:44-47 | All-ready in SPA mode. Shell-ready for a missing or empty user agent outside SPA mode. Otherwise all-ready exactly when the classifier calls the user agent a bot. |
| `Handler.AtReady` | app/entry.server.tsx:62-87 | The ready callback on the state. No contract of its own; characterised by `SettledByFirstDecidingEvent` and `ShellRenderedIffReady`. |
| `Handler.Step` | app/entry.server.tsx:62-102 | One renderer call dispatched to its callback. No contract of its own; characterised by the trace lemmas below and by `RequestHandler.Notify`. |
| `Handler.Run` | app/entry.server.tsx:62-102 | The state after a trace. No contract of its own; characterised by the trace lemmas below and by `HandleRequest`. |
| `Handler.ErrorsIn` | app/entry.server.tsx:94-101 | The errors passed to the error callback, in order: an error is in the result exactly when the trace reports it, and there are no more of them than events. |
| `Handler.RunAppend` | app/entry.server.tsx:62-102 | Running two traces one after the other is running their concatenation. |
| `Handler.ShellRenderedIffReady` | app/entry.server.tsx:62-63 | `shellRendered` becomes true exactly when the chosen readiness callback fires, and it is never reset. |
| `Handler.StatusForcedByErrors` | app/entry.server.tsx:94-95 | Any error event sets the status to 500; without one the status stays as the caller passed it. |
| `Handler.LogsAllAfterShell` | app/entry.server.tsx:99-101 | After the shell is sent, every error is logged, in order. |
| `Handler.QuietBeforeReady` | app/entry.server.tsx:96-101 | Before the readiness callback, nothing is logged and the headers are untouched. Without a shell error, the promise stays as it was. |
| `Handler.SettlementIsFinal` | app/entry.server.tsx:82-93 | A settled promise keeps its settlement, whatever the renderer does afterwards. |
| `Handler.SettledByFirstDecidingEvent` | app/entry.server.tsx:62-93 | The first readiness or shell-error event decides the promise. Readiness resolves it with the HTML content type and the status at that moment, which is 500 if an error came first. A shell error rejects it with that error. |
| `Handler.PendingWithoutDecidingEvent` | app/entry.server.tsx:62-93 | Without a readiness or shell-error event the promise stays pending. |
| `Handler.ResolvedOnlyAfterReady` | app/entry.server.tsx:44-62 | A response exists only if the chosen readiness event has occurred. |
| `Handler.LoggedErrorsAreThoseAfterReady` | app/entry.server.tsx:96-101 | Nothing is logged while the readiness event has not come. Afterwards, exactly the errors following its first occurrence are logged, in order. |
| `Handler.CrawlersWaitForAllReady` | app/entry.server.tsx:42-47 | For a bot user agent or in SPA mode, the promise is resolved only after the all-ready event. |
| `Handler.BrowsersStreamFromShell` | app/entry.server.tsx:44-87 | Otherwise the first shell-ready event resolves the promise, provided no shell error came first, whatever all-ready or error events surround it. The response has the HTML content type and the status at that moment, 500 after an earlier error. |
| `Handler.RequestHandler.constructor` | app/entry.server.tsx:32-47 | Each request starts with `shellRendered` false, the caller's status and headers, a pending promise, and the readiness callback chosen from the user agent and SPA mode. |
| `Handler.RequestHandler.OnReady` | app/entry.server.tsx:62-89 | Sets `shellRendered`, sets the content type to `text/html`, and resolves a pending promise with the current status and headers. |
| `Handler.RequestHandler.OnShellError` | app/entry.server.tsx:91-93 | Rejects a pending promise with the error; nothing else changes. |
| `Handler.RequestHandler.OnError` | app/entry.server.tsx:94-102 | Sets the status to 500 and logs the error only if the shell was already sent. |
| `Handler.RequestHandler.Notify` | app/entry.server.tsx:61-103 | Only the chosen readiness event reaches the ready callback; the new state is `Step` of the old one. |
| `Handler.HandleRequest` | app/entry.server.tsx:25-108 | Replaying a trace gives the settlement, status and log of `Run`. The final status is 500 exactly when an error occurred. A resolved promise implies the chosen readiness event occurred. |

## Left out

- React rendering (`renderToPipeableStream`, `renderToStaticMarkup`, `renderToStyleElements`, the providers and `ServerRouter`) is code this model cannot see. The style markup rendered at each chunk is an input (`Flush.style`), and the order of the renderer's callbacks is an input trace.
- `isbot` is an external classifier and is passed in as a function `isBot`.
- Node and Web stream plumbing (`PassThrough`, `createReadableStreamFromReadable`, `pipe`, `Response`) is I/O. Chunks are taken as already decoded text, so a multi-byte character split across two Buffers is not modelled. Strings are sequences of Unicode scalar values, not UTF-16 code units; the match found is the same, because the tag and `\s` are all in the Basic Multilingual Plane.
- The body transform is installed by the ready callback (line 64) and fed by `pipe` (line 89). The model keeps the transform (`StyleInjection`) and the handler (`Handler`) apart and does not connect the two objects.
- The abort timer `setTimeout(abort, ABORT_DELAY)` (line 106) is timing. Its effect is whatever error event the renderer then reports, which the trace covers.
- `console.error` is output; the model records the logged errors in a sequence.
- `new Response` throws a RangeError for a status outside 200-599, and a TypeError for the null-body statuses 204, 205 and 304 when given a body, as it is here. The caller's status is assumed to be one `Response` accepts with a body.
- Header names: a map stands for the platform's `Headers`, which stores every name in lower case. The caller's headers are assumed to be in that stored form; a key such as `Content-Type` would sit beside the `content-type` entry the ready callback sets, where `Headers.set` keeps only one.
- A general regular-expression engine is left out. `Compile` reads the tag correctly only because the tag has no regular-expression syntax characters, and the model does not check that.
- vite.config.ts is build-tool configuration, a plugin list and a bundling option with no behaviour of its own, so it is not part of this model.

## Findings

| source | as written | input that shows it | evidently intended | confidence | as-written member | corrected member |
|---|---|---|---|---|---|---|
| app/entry.server.tsx:71 | The tag plus styles is passed to `replace` as a replacement string, so the `$` patterns in the styles are expanded: `$&`, `$'`, `` $` ``, `$$` and `$1`/`$01`. Style markup holding `$&` or `$'`, for instance in a CSS string such as `content:"$'"`, is rewritten. | A chunk that is the canonical tag and the styles `$&`: the output is the tag twice, and `$&` is lost. | Insert the styles verbatim, e.g. with a replacer function. | medium, not executed | `Substitution.DollarAmpersandRepeatsMarker` (on `Substitution.ReplaceAsWritten`) | `Substitution.ReplaceFirstReplacesLeftmostVariant` (on `Substitution.ReplaceFirst`, which `StyleInjection` uses) |
