# TuProfeAI core, modelled in Dafny

TuProfeAI is a single-page study-guide app. The user pastes course material. A language
model is asked for the chapters. The user picks a chapter and an analysis depth, and a
second request returns a study guide: a summary split into pages, key points, examples
and a quiz. The guide view lets the user load more quiz questions and chat about the
document.

This project models four parts of that app:

- `App.Session` (app.dfy) is the session state machine of App.tsx. It is a class whose
  fields are the component's state variables. Each handler is a method that states the
  whole new state. An `await` splits a handler into a `Begin` step and a `Complete` step,
  and the handler runs both with the model's reply as an input.
- `AnalysisResult` (analysis_result.dfy) is the guide view of components/AnalysisResult.tsx,
  except `renderMarkdown`. It covers:
  - the page split of the summary;
  - the quiz list, which grows by appending;
  - the chat, including the history captured by the pending answer's closure;
  - the answer lock of each quiz card.
- `Markdown` (markdown.dfy) is `renderMarkdown`, which runs these steps in order:
  1. unescape `\n` sequences;
  2. extract fenced code into numbered placeholders;
  3. rewrite h3 and h2 headings, inline code, bold text and newlines;
  4. put the code blocks back.
- `GeminiService` (gemini_service.dfy) is the post-processing in services/geminiService.ts:
  - the request each call sends, as the values spliced into it;
  - the chapter tagging;
  - the grounding-URL filter;
  - the internet, parsed and fallback shapes of an analysis;
  - the fallbacks for an empty reply.

  The remote call is an input of type `Reply`: either a response or a thrown error.
  `JSON.parse` is an input function that returns `None` when it would throw.

`Strings` (strings.dfy) models the JavaScript built-ins the core relies on: `trim`,
`indexOf`, `substring` and `split`. `Types` (types.dfy) models the records of types.ts.

## Model

| member | source | states |
|---|---|---|
| App.Session.constructor | App.tsx:15-24 | The session starts idle, with empty text and chapters, no selection, style `medium`, language `español`, no guide, an empty chat and no error. |
| App.Session.BeginDetection | App.tsx:33-36 | Blank text (after `trim`) does nothing. Otherwise the status becomes parsing, the error is cleared and the detection request carries the text and the language. No other field changes. |
| App.Session.CompleteDetection | App.tsx:37-45 | On success the detected list replaces the chapters and the status becomes configuring. On failure the status becomes error with the detection message and the chapters stay. The selection is never touched. |
| App.Session.DetectChapters | App.tsx:33-46 | The whole handler: nothing happens for blank text. Otherwise the request is sent and the new state follows the service's detection result for the reply. |
| App.Session.CompleteDetectionDroppingSelection | App.tsx:39 | The corrected detection step: on success the selection is dropped along with the old chapters. The selection stays one of the chapters on offer. |
| App.Session.BeginAnalysis | App.tsx:49-52 | With no chapter selected nothing happens. Otherwise the status becomes loading and the error is cleared. The request carries the text, the style, the selected chapter's title and the language; its prompt holds the text's first 400000 characters. |
| App.Session.CompleteAnalysis | App.tsx:53-62 | On success the guide is stored, the chat is emptied and the status becomes success. On failure the status becomes error with the analysis message and the previous guide and chat stay. |
| App.Session.StartAnalysis | App.tsx:49-63 | The whole handler: the request, then the new state given by the service's analysis outcome for the reply. |
| App.Session.Reset | App.tsx:66-73 | Guide, chapters, selection, text and error are cleared and the status is idle. The chat, style, language and user are kept. |
| App.Session.GoBack | App.tsx:167 | Only the status changes, to idle. The chapters and the selection stay. |
| App.Session.SelectChapter | App.tsx:171-174 | A card click selects the `i`-th chapter on offer, so the selection is one of the chapters. Nothing else changes. |
| App.Session.SelectStyle | App.tsx:201-204 | The style becomes the clicked one. Nothing else changes. |
| App.Session.EditText | App.tsx:132-134 | The text becomes the typed value. Nothing else changes. |
| App.Session.SelectLanguage | App.tsx:88-90 | The language becomes the chosen value. Nothing else changes. |
| App.Session.SetChatHistory | App.tsx:249 | The history handed down to the guide view is written back. Nothing else changes. |
| App.StaleSelection | App.tsx:33-46 | The steps detect, select, Go Back, edit and detect again leave the status configuring with a selection that is not among the new chapters. |
| App.FreshSelection | App.tsx:171-174 | The same steps with the corrected detection step end with no selection, which is one of the chapters on offer. |
| AnalysisResult.Pages | components/AnalysisResult.tsx:48 | The summary split on `---PAGE---` has at least one page. No page holds the marker. Joining the pages with the marker gives the summary back. Without a marker the one page is the summary; otherwise the first page ends where the leftmost marker starts. |
| AnalysisResult.OverlappingMarkers | components/AnalysisResult.tsx:48 | Markers that share dashes are cut left to right: `---PAGE---PAGE---` gives the pages `""` and `PAGE---`. |
| AnalysisResult.OnePageIffNoMarker | components/AnalysisResult.tsx:48 | There is exactly one page iff the marker does not occur, and that page is then the whole summary. |
| AnalysisResult.PageCount | components/AnalysisResult.tsx:48 | The page count is one more than the number of markers found left to right. |
| AnalysisResult.AnsweredStays | components/AnalysisResult.tsx:315-316 | Once an answer is recorded, no sequence of clicks changes it. |
| AnalysisResult.FirstClickWins | components/AnalysisResult.tsx:303-316 | Starting unanswered, the first click of any sequence is the answer. |
| AnalysisResult.AnsweredMarks | components/AnalysisResult.tsx:317-325 | After answering `v`, every option is marked. `v` is green or red, and no other option is red. `v` is green iff it is correct, no other option is green, and the correct option is green whenever `correctIndex` names an option. |
| AnalysisResult.QuizItem.constructor | components/AnalysisResult.tsx:302-303 | A card starts unanswered. |
| AnalysisResult.QuizItem.Explanation | components/AnalysisResult.tsx:331-336 | The explanation is shown iff an answer is recorded, and it is the question's explanation. |
| AnalysisResult.QuizItem.Click | components/AnalysisResult.tsx:312-316 | Clicking an option button records the option only on the first click. |
| AnalysisResult.QuizAfter | components/AnalysisResult.tsx:54 | The old list is a prefix of the new one. On success exactly the fetched questions are appended. A failed request leaves the list unchanged. |
| AnalysisResult.QuizAfterTwice | components/AnalysisResult.tsx:54 | Two loads append both batches, in order. |
| AnalysisResult.ResultView.constructor | components/AnalysisResult.tsx:40-45 | The view starts with the guide's quiz, an empty question box and no request in flight. |
| AnalysisResult.ResultView.SummaryPages | components/AnalysisResult.tsx:48 | The pages rebuild the guide's summary. |
| AnalysisResult.ResultView.BeginLoadMore | components/AnalysisResult.tsx:50-53 | The button shows as busy. The request for more questions is sent with the document text and the language. The current quiz length is passed, but it does not reach the request. |
| AnalysisResult.ResultView.CompleteLoadMore | components/AnalysisResult.tsx:54-55 | The outcome is appended to the list as it stands, and the button is freed. |
| AnalysisResult.ResultView.LoadMoreQuestions | components/AnalysisResult.tsx:50-56 | The whole handler: the list afterwards is the old list with the service's questions for the reply appended. A failed call leaves it as it was. |
| AnalysisResult.ResultView.EditQuestion | components/AnalysisResult.tsx:289 | The question box holds the typed value. |
| AnalysisResult.ResultView.BeginAsk | components/AnalysisResult.tsx:73-79 | A blank question, or one sent while another is in flight, changes nothing. Otherwise the user message is appended to the history, the history is captured, the box is cleared and the view is busy. The session's other fields stay. |
| AnalysisResult.ResultView.CompleteAsk | components/AnalysisResult.tsx:80-83 | An answer writes captured history + question + answer, whatever the history became meanwhile. A failure leaves the history. The view is no longer busy. The session's other fields stay. |
| AnalysisResult.ResultView.AskQuestion | components/AnalysisResult.tsx:73-84 | With nothing in between, the history grows by the question and the answer, or by the question alone when the call fails. The session's other fields stay. |
| AnalysisResult.ResultView.ResetChat | components/AnalysisResult.tsx:267 | The history is emptied. The session's other fields stay. |
| AnalysisResult.ResetDuringAnswer | components/AnalysisResult.tsx:73-84 | A Reset Chat while an answer is pending does not stick: afterwards the history is the old history followed by the question and the answer, as the user and the model messages. |
| Markdown.Unescape | components/AnalysisResult.tsx:21 | Text without a backslash is unchanged, and a non-empty text stays non-empty. |
| Markdown.UnescapeJoin | components/AnalysisResult.tsx:21 | A backslash-`n` between two texts becomes a newline, and each side is unescaped as it would be alone: no escape straddles the seam. |
| Markdown.UnescapeLeavesNoEscape | components/AnalysisResult.tsx:21 | No backslash-`n` pair is left after the first step. |
| Markdown.FirstBlockFences | components/AnalysisResult.tsx:23 | The first block opens at the first fence and closes at the next fence after it, with no fence in between. |
| Markdown.PiecesRoundTrip | components/AnalysisResult.tsx:23 | Putting the fences back around the code pieces gives the text back, so the cut loses nothing. |
| Markdown.CodeHoldsNoFence | components/AnalysisResult.tsx:23 | Because the match is lazy, no extracted code holds a fence. |
| Markdown.NatToStringIsDigits | components/AnalysisResult.tsx:24 | A block number is written with decimal digits only. |
| Markdown.PlaceholderIsWord | components/AnalysisResult.tsx:24 | A placeholder is letters, digits and underscores only. |
| Markdown.PlaceheldHoldsPlaceholder | components/AnalysisResult.tsx:22-30 | The text after extraction holds the placeholder of every extracted block. |
| Markdown.ExtractCodeBlocks | components/AnalysisResult.tsx:22-30 | The callback loop leaves the text with numbered placeholders and the blocks in order, as the piece model defines them. |
| Markdown.LineLength | components/AnalysisResult.tsx:31-32 | The heading captures the text up to the first line terminator, which `.` does not match. |
| Markdown.HeadingSkipsLine | components/AnalysisResult.tsx:31-32 | A line that does not start with the marker is left alone. |
| Markdown.H3LineIsNotH2 | components/AnalysisResult.tsx:31-32 | A `### ` line becomes one h3 and the `## ` rule does not touch it again. |
| Markdown.H2Line | components/AnalysisResult.tsx:32 | A `## ` line becomes an h2. |
| Markdown.FindClose | components/AnalysisResult.tsx:33-34 | The lazy match closes at an occurrence of the delimiter. |
| Markdown.FindCloseIs | components/AnalysisResult.tsx:33-34 | The lazy match closes at the first delimiter when no line ends before it. |
| Markdown.DelimitedSpan | components/AnalysisResult.tsx:33-34 | A span between two delimiters, on one line and with no delimiter starting inside it, is wrapped in the tags and nothing else changes. |
| Markdown.InlineCodeSpan | components/AnalysisResult.tsx:33 | `` `x` `` on one line with no backtick in `x` becomes `<code>x</code>`. |
| Markdown.BoldSpan | components/AnalysisResult.tsx:34 | `**x**` on one line with no `**` in `x`, and `x` not ending in `*`, becomes `<strong>x</strong>`. |
| Markdown.BreaksLeaveNoNewline | components/AnalysisResult.tsx:35 | No newline is left after the line-break rule. |
| Markdown.RewriteLeavesNoNewline | components/AnalysisResult.tsx:31-35 | No newline is left after the heading, inline-code, bold and line-break rules. |
| Markdown.RewriteKeepsWords | components/AnalysisResult.tsx:31-35 | A word of placeholder characters that occurs in the text still occurs after the rewrite rules. |
| Markdown.RewriteFixesWord | components/AnalysisResult.tsx:31-35 | The rewrite rules leave a placeholder-like word unchanged. |
| Markdown.PlaceholdersSurviveRewrite | components/AnalysisResult.tsx:22-36 | Every block's placeholder is still in the text when the blocks are put back. |
| Markdown.ReplaceFirst | components/AnalysisResult.tsx:36 | Without the placeholder the text is unchanged. With it, the text before and after its first occurrence is kept, the block stands where that occurrence stood, and the length changes by the difference of the two. |
| Markdown.RestoreCodeBlocks | components/AnalysisResult.tsx:36 | The `forEach` loop computes the restore function: block `i` replaces the first copy of placeholder `i` in the text at that point, which need not be the copy extraction left. |
| Markdown.FirstPlaceholderAt | components/AnalysisResult.tsx:36 | After a text with no `__CODE_BLOCK_` in it, the first copy of a placeholder is the one that follows: no copy can start earlier and run into it. |
| Markdown.RestoreFrom | components/AnalysisResult.tsx:22-36 | Restoring into an extracted text from block `k` on, after a part already done, puts each block in place of its own placeholder. |
| Markdown.RestoreUndoesExtraction | components/AnalysisResult.tsx:22-36 | Putting the blocks back into the extracted text gives the text with each fence replaced by its block, when that text holds no `__CODE_BLOCK_`. |
| Markdown.Rendered | components/AnalysisResult.tsx:19-20 | Empty text renders as empty. |
| Markdown.RenderedAsWritten | components/AnalysisResult.tsx:19-20 | Empty text renders as empty, with the blocks inserted by `replace(string, string)`. |
| Markdown.RenderMarkdown | components/AnalysisResult.tsx:19-37 | The six steps run in order compute the rendering, except that the blocks go back verbatim where the source expands `$` patterns. |
| Markdown.SingleFence | components/AnalysisResult.tsx:22-35 | Text made of one fenced block of plain code extracts to placeholder 0 and that block, and the rewrite rules leave placeholder 0 alone. |
| Markdown.FenceRendersVerbatim | components/AnalysisResult.tsx:22-36 | Text made of one fenced block of plain code renders as exactly that block, trimmed, inside the code-block wrapper. |
| Markdown.FenceRendersAsWritten | components/AnalysisResult.tsx:36 | As written, such text renders as the wrapper with the code passed through `$`-pattern substitution. |
| Markdown.DollarPatternsRewritten | components/AnalysisResult.tsx:36 | As written, a fenced block holding `$$` renders with a single `$`. |
| Markdown.DollarsKept | components/AnalysisResult.tsx:36 | Inserted verbatim, the same block renders with `$$`. |
| Strings.Trim | App.tsx:34 | `trim` yields the one slice with only whitespace around it and no whitespace at either end. |
| Strings.BlankIffAllWhitespace | App.tsx:34 | `!text.trim()` holds iff every character is whitespace. |
| Strings.TrimIdempotent | components/AnalysisResult.tsx:75 | Trimming twice is trimming once. |
| Strings.IndexOf | components/AnalysisResult.tsx:36 | `indexOf` returns an occurrence with none before it, or nothing when there is none. |
| Strings.Prefix | services/geminiService.ts:16 | `substring(0, n)` is the first `min(length, n)` characters. |
| Strings.Split | components/AnalysisResult.tsx:48 | `split` returns at least one piece. No piece holds the separator. Joining gives the text back. Without a separator the one piece is the text; otherwise the first piece ends where the leftmost separator starts. |
| Strings.SplitSingleIff | components/AnalysisResult.tsx:48 | There is one piece iff the separator does not occur. |
| Strings.SplitCount | components/AnalysisResult.tsx:48 | There is one more piece than there are separators. |
| GeminiService.TextOr | services/geminiService.ts:33 | `response.text \|\| fallback` is the non-empty text when there is one and the fallback otherwise. |
| GeminiService.TagChapters | services/geminiService.ts:34 | Every parsed chapter is kept, in order, with its fields, and marked not studied. |
| GeminiService.DetectChapters | services/geminiService.ts:9-35 | A thrown call fails with its message and unparsable text fails as malformed. Otherwise there is one unstudied chapter per parsed element, in order, with its id, title and content. |
| GeminiService.EmptyReplyDetectsNothing | services/geminiService.ts:33 | An empty or missing reply text detects no chapters. |
| GeminiService.DepthInstructionsDistinct | services/geminiService.ts:49-63 | Each style sends its own depth instruction. |
| GeminiService.SearchOnlyForInternet | services/geminiService.ts:47-83 | The search tool and a free-text reply go with the internet style. JSON with the analysis schema goes with every other style. |
| GeminiService.WebUrls | services/geminiService.ts:123 | Filtering never yields more URLs than chunks. |
| GeminiService.GroundingUrls | services/geminiService.ts:122-123 | Missing chunks give no URLs. Otherwise there are at most as many URLs as chunks, and a URL is listed exactly when some web chunk carries that title and uri. |
| GeminiService.WebUrlsConcat | services/geminiService.ts:123 | Filtering distributes over concatenation. |
| GeminiService.WebUrlsMembership | services/geminiService.ts:123 | A URL is kept iff some chunk carries that web source. |
| GeminiService.AllWebChunksKept | services/geminiService.ts:123 | When every chunk is a web chunk, each is kept, in order. |
| GeminiService.AnalysisOutcome | services/geminiService.ts:122-151 | The analysis fails iff the call threw, and a guide always carries the reply's grounding URLs. |
| GeminiService.InternetSummary | services/geminiService.ts:125-133 | The internet style's guide has the chapter title, the reply text (or the fixed message) as summary, one fixed key point and no quiz. |
| GeminiService.ParsedDocumentKept | services/geminiService.ts:136-140 | A parsed reply is returned as parsed, except that its grounding URLs are overwritten. |
| GeminiService.UnparsableReplyDegrades | services/geminiService.ts:141-150 | An unparsable reply gives a guide with the raw text as summary, the fixed key point and an empty quiz. |
| GeminiService.AnalyzeCourseContent | services/geminiService.ts:37-152 | The request built from the inputs is sent, and the outcome is the post-processing of the reply. |
| GeminiService.MoreQuestions | services/geminiService.ts:177 | A thrown call is a failure. Reply text (or `"[]"` when it is empty) that does not parse is malformed; otherwise the parsed questions are the result. An empty reply parses as no questions. |
| GeminiService.Answer | services/geminiService.ts:189 | There is an answer iff the call did not throw. It is never empty. It is the reply text when that is non-empty, and the fixed apology otherwise. |
| GeminiService.PromptsEmbedBoundedPrefix | services/geminiService.ts:9-190 | Each prompt embeds the text's first 500000, 400000, 200000 or 800000 characters respectively. |

## Left out

- The auth listener, login and logout (App.tsx:27-30). `App.Session.user` is a field that no modelled step sets.
- PDF export, cloud saving, the Drive service and firebase: they are I/O.
- React rendering, the style sheets and the CSS class attributes. The tags are written without their `class` attributes. The code-block wrapper keeps its "Fragmento de Código" label, but not the whitespace and line breaks between its tags.
- The ids from `Date.now()`: they are parameters of `BeginAsk`, `CompleteAsk` and `AskQuestion`.
- The remote model and `JSON.parse`. The reply is an input value and `JSON.parse` is an input function. A reply whose JSON has the wrong shape counts as a parse failure, where the source would go on with the partial object.
- GeminiService.AnalysisOutcome: an empty reply text for a non-internet style is read as `{}`, which `JSON.parse` accepts (services/geminiService.ts:136-139). The source then returns an object holding only `groundingUrls`, and the guide view fails on `data.summary.split` (components/AnalysisResult.tsx:48). A `CourseAnalysis` here has every field, so the model cannot hold that object: such a reply is either a whole parsed document or the raw-text fallback of `GeminiService.UnparsableReplyDegrades`.
- Strings.Prefix: a `char` is a Unicode scalar value, while `substring` and `length` count UTF-16 code units. For text outside the Basic Multilingual Plane the model's cut falls later than the source's, and it never splits a surrogate pair as the source may.
- Markdown.FenceRendersVerbatim: the whole rendering is proved only for a text that is one fenced block. For a text that mixes prose and blocks, the model proves that every placeholder survives the rewrite rules and that restoring undoes extraction. It does not prove where each block lands after the rules have rewritten the prose between them.
- The fixed wording of the prompts. A request records only the model name, the language, the spliced values, the depth instruction, the tools and the schema.
- Asynchronous interleavings: only the `Begin`/`Complete` split of each handler is modelled, plus the one interleaving in `AnalysisResult.ResetDuringAnswer`.
- Console logging in the `catch` blocks.
- `AppStatus.SelectingLanguage` is declared but no handler sets it.
- The `language = 'espa単ol'` defaults of the service functions: every caller passes the language, so the defaults are never used.
- `generateMoreQuestions` receives the current quiz length but never uses it. `GeminiService.MoreQuestionsRequest` takes it and drops it the same way.
- `AnalysisResult.ResultView.constructor`: it copies the guide's quiz once, as `useState` does. A later change of the `data` prop is not followed.
- Markdown.Heading, Markdown.Wrap and Markdown.Breaks implement only the regular-expression features their patterns use: `^` and `$` in multiline mode, lazy `.*?` and the line terminators of `.`.
- `QuizQuestion.correctIndex` is an unconstrained integer, as the schema leaves it.

## Findings

| source | as written | input that shows it | evidently intended | confidence | as-written member | corrected member |
|---|---|---|---|---|---|---|
| components/AnalysisResult.tsx:36 | Each code block is put back with `replace(placeholder, block)`, a string replacement, so `$$`, `$&`, `` $` `` and `$'` in the code are expanded | the text "```$$```" renders its code as a single `$` | code blocks appear verbatim (a replacement function, as in the extraction step) | high; not executed | Markdown.DollarPatternsRewritten | Markdown.DollarsKept |
| App.tsx:39 | A new detection replaces the chapters but leaves `selectedChapter` set, while `handleReset` clears both together | detect on "a" with result [A], select A, Go Back, edit the text to "b", detect again with result [B]: the configuration screen offers to analyse A, which is not among the chapters | the selection is dropped when the chapter list is replaced | medium; not executed | App.StaleSelection | App.Session.CompleteDetectionDroppingSelection |

`Markdown.RenderMarkdown` and `Markdown.Rendered` use the verbatim insertion. The
as-written insertion is kept in `Markdown.RenderedAsWritten`, with
`Markdown.FenceRendersAsWritten` describing it. `App.Session.DetectChapters` keeps the
detection step as written. The corrected step is `App.Session.CompleteDetectionDroppingSelection`,
and `App.FreshSelection` runs it through the same steps.
