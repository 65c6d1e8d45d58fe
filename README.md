# Tutor Multimedia — a Dafny model of the lesson pipeline

The app turns a topic into a short illustrated lesson. It makes one text
call, grounded in web search, whose free-text reply follows a marker
protocol (`[INTRO]`, `[SECCION]`, `TITULO:`, `CONTENIDO:`, `VISUAL:`). It
then makes one image call per section. The screen shows progress through
the stages idle → researching → writing → designing → completed, or error.

This project models the sequential logic of that pipeline:

- `PlanParser` (services/geminiService.ts, `generateLessonPlan`): the reply
  text is parsed into an introduction and one section per `[SECCION]`, each
  missing marker giving its placeholder. Grounding citations become sources:
  only those with both a non-empty `uri` and a non-empty `title` are kept,
  and duplicates by `uri` are dropped, keeping the first.
- `SectionImages` (services/geminiService.ts, `generateSectionImages`): each
  section is merged with the outcome of its own image call.
- `LessonView` (components/LessonView.tsx, `cleanText`): four global
  deletions of Markdown markers.
- `LoadingIndicator` (components/LoadingIndicator.tsx): the status of each
  progress step for a stage.
- `App` (App.tsx): the class `TutorApp` with the fields `topic`, `stage`,
  `lessonData` and `errorMsg`, moved by `HandleSearch` and `HandleReset`.
- `Types` (types.ts): the records and the stage enumeration.
- `JsString`: the JavaScript string built-ins the code relies on. These are
  `trim` and the `\s` class (one whitespace predicate, JavaScript's
  WhiteSpace and LineTerminator set), the `.` class, searching for a literal,
  `split` with a string separator, and `replace` with a global literal
  pattern and an empty replacement.
- `Wrappers` and `Sequences` are small helpers: optional values, the
  outcome of a call that may throw, and sub-sequences.

The remote calls are parameters. The text call is a
`Result<TextReply>`: either it threw, or it returned a reply text and
grounding chunks. The image calls are one `ImageOutcome` per section
position: either the call threw, or it returned the parts of its reply.

Regular expressions are modelled by what they match on these inputs.
`marker\s*([\s\S]*?)(?=stop|$)` finds the first `marker`, then skips all
whitespace, then takes everything up to the next `stop` or the end of the
input. `$` means the end of the input, because there is no `m` flag.
`TITULO:\s*(.*)` skips whitespace, line breaks included, and then takes
the rest of that line.

Four behaviours of the code are easy to misread:

- `cleanText` is not idempotent. `"#__#"` cleans to `"##"`, which cleans to
  `""`. The model proves idempotence exactly when the cleaned text has no
  `##` left.
- Nothing forces three sections. The count is the number of `[SECCION]`
  markers in the reply.
- An empty `TITULO:` line does not give an empty title when more text
  follows. `\s*` also skips the line break, so the title becomes the next
  non-blank line. The title is `""` only when nothing but whitespace
  follows the marker.
- A successful image reply without inline data sets `imageUrl` to
  undefined, clearing any earlier value. A failed call keeps the section
  exactly as it was.

## Model

| member | source | states |
|---|---|---|
| `JsString.IndexOfFrom` | services/geminiService.ts:60 | the leftmost occurrence of a literal at or after a position, with no occurrence before it, or none at all |
| `JsString.Trim` | services/geminiService.ts:61 | the trimmed text neither starts nor ends with whitespace, is empty exactly for all-space input, and what is cut off at both ends is whitespace |
| `JsString.TrimUnique` | services/geminiService.ts:61 | trimming whitespace + t + whitespace gives t when t neither starts nor ends with whitespace |
| `JsString.TrimLeadingSpace` | services/geminiService.ts:60 | whitespace skipped by `\s*` before the group does not change the trimmed group |
| `JsString.TrimIdempotent` | services/geminiService.ts:61 | trimming twice is trimming once |
| `JsString.Split` | services/geminiService.ts:64 | `split` yields one more piece than there are non-overlapping occurrences of the separator, and joining the pieces with the separator restores the string |
| `JsString.SplitPiecesClean` | services/geminiService.ts:64 | no piece of a split contains the separator |
| `JsString.CountZeroIff` | services/geminiService.ts:64 | the occurrence count is zero exactly when the separator does not occur |
| `JsString.DeleteAllLength` | components/LessonView.tsx:14-17 | a global deletion removes exactly the pattern's length per occurrence counted left to right |
| `JsString.DeleteAllSubsequence` | components/LessonView.tsx:14-17 | a global deletion only deletes: the result is a sub-sequence of the input |
| `JsString.DeleteAllAbsent` | components/LessonView.tsx:14-17 | a string without the pattern is returned unchanged |
| `JsString.DeleteAllShrinks` | components/LessonView.tsx:14-17 | a string holding the pattern gets strictly shorter |
| `JsString.DeleteAllChar` | components/LessonView.tsx:15 | deleting a one-character pattern leaves no copy of that character |
| `JsString.DeleteAllPair` | components/LessonView.tsx:17 | deleting a doubled character left to right leaves no two adjacent copies of it |
| `LessonView.CleanTextNoAsterisk` | components/LessonView.tsx:14-15 | the cleaned text holds no `*` |
| `LessonView.CleanTextNoDoubleUnderscore` | components/LessonView.tsx:17 | the cleaned text holds no `__` |
| `LessonView.CleanTextDeletesOnly` | components/LessonView.tsx:12-18 | the cleaned text is a sub-sequence of the input and no longer than it |
| `LessonView.CleanTextCleanInput` | components/LessonView.tsx:12-18 | text without `*`, `#` or `_` is returned unchanged |
| `LessonView.CleanTextIdempotentIff` | components/LessonView.tsx:16-17 | cleaning the cleaned text changes nothing exactly when it holds no `##` |
| `LessonView.CleanTextOddHashes` | components/LessonView.tsx:16 | deletion is left to right and non-overlapping: `###` cleans to `#` |
| `LessonView.CleanTextOddUnderscores` | components/LessonView.tsx:17 | `___` cleans to `_` |
| `LessonView.CleanTextAsterisks` | components/LessonView.tsx:14-15 | `****` cleans to the empty string |
| `LessonView.CleanTextJoinsHashes` | components/LessonView.tsx:16-17 | `#__#` cleans to `##`: deleting `__` joins two `#` after the `##` pass has run |
| `LessonView.CleanTextNotIdempotent` | components/LessonView.tsx:16-17 | `#__#` shows that cleaning is not idempotent in general |
| `PlanParser.LazyGroup` | services/geminiService.ts:60 | no match exactly when the marker does not occur; otherwise the group starts after the first marker and the whitespace behind it, and ends at the first stop marker from there, or at the end of the text |
| `PlanParser.LazyGroupBetween` | services/geminiService.ts:60-69 | when the marker first occurs at i and the first stop marker after it is at e (or e is the end), the lazy group is the text from i plus the marker's length up to e, with its leading whitespace skipped |
| `PlanParser.IntroDefault` | services/geminiService.ts:61 | without `[INTRO]` the introduction is `Aquí tienes tu lección.` |
| `PlanParser.IntroBetweenMarkers` | services/geminiService.ts:60-61 | the introduction is the trimmed text between the first `[INTRO]` and the next `[SECCION]`, or the end |
| `PlanParser.SectionCount` | services/geminiService.ts:64-66 | the number of sections is the number of non-overlapping `[SECCION]` occurrences, and zero exactly when there is none |
| `PlanParser.SectionChunksSpec` | services/geminiService.ts:64 | the chunks hold no `[SECCION]`, and joining them behind the discarded prefix restores the text |
| `PlanParser.TitleDefault` | services/geminiService.ts:72 | without `TITULO:` the title is `Concepto Clave` |
| `PlanParser.LineGroup` | services/geminiService.ts:67 | the `(.*)` group never holds a line terminator |
| `PlanParser.TitleOneLine` | services/geminiService.ts:67-72 | the title never contains a line terminator |
| `PlanParser.TitleLine` | services/geminiService.ts:67-72 | the title is the trimmed line starting at the first non-space character after the first `TITULO:` (line breaks skipped) and ending at the next line break |
| `PlanParser.TitleEmpty` | services/geminiService.ts:67-72 | a `TITULO:` followed only by whitespace gives the empty title, not the placeholder |
| `PlanParser.ContentDefault` | services/geminiService.ts:73 | without `CONTENIDO:` the content is the whole chunk, trimmed |
| `PlanParser.ContentBetweenMarkers` | services/geminiService.ts:68-73 | the content is the trimmed text between the first `CONTENIDO:` and the next `VISUAL:`, or the end of the chunk |
| `PlanParser.VisualDefault` | services/geminiService.ts:74 | without `VISUAL:` the prompt is `Una ilustración educativa sobre ` followed by the topic |
| `PlanParser.VisualRest` | services/geminiService.ts:69-74 | in a chunk without `[SECCION]` the prompt is the trimmed rest after the first `VISUAL:` |
| `PlanParser.CollectSources` | services/geminiService.ts:79-91 | the loop pushes exactly the sources of the citable chunks, in order, and none without chunks |
| `PlanParser.CitedSourcesMembers` | services/geminiService.ts:82-90 | a source is collected exactly when some chunk has a non-empty `uri` and `title` that form it |
| `PlanParser.CitedSourcesAppend` | services/geminiService.ts:83-90 | collection follows the order of the chunks: collecting over two runs of chunks is collecting over each in turn |
| `PlanParser.CitedSourcesNonEmpty` | services/geminiService.ts:84 | every collected source has a non-empty `uri` and `title` |
| `PlanParser.FindIndexByUri` | services/geminiService.ts:93 | `findIndex` returns the first position with the `uri`, or -1 when there is none |
| `PlanParser.KeepUnseenSpec` | services/geminiService.ts:93 | the reference scan keeps a sub-sequence of its input whose `uri`s are distinct and are exactly the input's `uri`s not seen before |
| `PlanParser.KeepFirstFromIsScan` | services/geminiService.ts:93 | the filter from position i on equals the scan over the rest of the array with the `uri`s before i already seen |
| `PlanParser.KeepFirstFromKeepsFirst` | services/geminiService.ts:93 | every source the filter keeps is the first source in the array with its `uri` |
| `PlanParser.UniqueByUriIsScan` | services/geminiService.ts:93 | the `findIndex` filter equals a left-to-right scan that keeps each `uri` the first time it is seen |
| `PlanParser.UniqueByUriSpec` | services/geminiService.ts:93 | after de-duplication no two sources share a `uri`, each kept source is the first with its `uri`, order is kept, and every `uri` is still present |
| `PlanParser.ParsePlan` | services/geminiService.ts:57-100 | the plan keeps the input topic, has one section per `[SECCION]`, and no section has an image yet |
| `PlanParser.PlanSources` | services/geminiService.ts:79-99 | the plan's sources have distinct non-empty `uri`s and titles, come in order from the citable chunks, and cover every cited `uri` |
| `PlanParser.PlanNoChunks` | services/geminiService.ts:80-82 | without grounding chunks there are no sources |
| `PlanParser.GenerateLessonPlan` | services/geminiService.ts:46-105 | a thrown text call is rethrown; otherwise the result is the plan parsed from the reply text, or from the empty string when the text is missing |
| `SectionImages.ImageUrlOf` | services/geminiService.ts:135-141 | the URL is absent exactly when no part has inline data, and otherwise is `data:image/png;base64,` followed by the payload of the first part that has it |
| `SectionImages.ExtractImageUrl` | services/geminiService.ts:135-141 | the loop with `break` computes the URL of the first inline part |
| `SectionImages.GenerateSectionImages` | services/geminiService.ts:112-151 | the result has the same length and order as the input, each section merged with the outcome of its own call |
| `SectionImages.MergeOne` | services/geminiService.ts:135-147 | one section's callback returns the section merged with its own call's outcome, as `MergeSectionSpec` describes |
| `SectionImages.MergeSectionSpec` | services/geminiService.ts:143-147 | title, content and visual prompt are unchanged; a reply sets the URL from its parts; a failed call returns the section unchanged |
| `SectionImages.FailureIsolation` | services/geminiService.ts:145-151 | changing one call's outcome changes no other section |
| `SectionImages.SingleImagePart` | services/geminiService.ts:137-138 | a part with inline data yields `data:image/png;base64,` followed by its payload |
| `LoadingIndicator.IndexOf` | components/LoadingIndicator.tsx:17 | `indexOf` returns the first position of the value, or -1 exactly when it is absent |
| `LoadingIndicator.StagePosition` | components/LoadingIndicator.tsx:16-17 | researching 0, writing 1, designing 2, completed 3, idle and error -1 |
| `LoadingIndicator.StepStatusRule` | components/LoadingIndicator.tsx:23-33 | step i is completed iff i is below the position, active iff equal, pending iff above |
| `LoadingIndicator.ActiveStepCount` | components/LoadingIndicator.tsx:30 | exactly one step is active while researching, writing or designing, none otherwise |
| `LoadingIndicator.EdgeStages` | components/LoadingIndicator.tsx:16-27 | completed marks all three steps completed; idle and error leave all three pending |
| `LoadingIndicator.MonotoneProgress` | components/LoadingIndicator.tsx:27-33 | completed steps form a prefix, and advancing the stage never turns a completed step back |
| `LoadingIndicator.StepIconRule` | components/LoadingIndicator.tsx:38 | a completed step shows `✅`, any other step its own icon |
| `App.IllustratePlan` | App.tsx:27-38 | the designing stage gives the plan's topic, introduction and sources, with each section merged with the outcome of its own image call |
| `App.TutorApp.constructor` | App.tsx:8-11 | the app starts with an empty topic, idle, with no lesson and no error |
| `App.TutorApp.SetTopic` | App.tsx:101 | typing sets the topic and nothing else |
| `App.TutorApp.SubmitEnabled` | App.tsx:108 | the submit button is enabled exactly when the topic holds a non-whitespace character, so an empty or whitespace-only topic disables it |
| `App.TutorApp.HandleSearch` | App.tsx:13-47 | a blank topic changes nothing; a thrown text call ends in the error stage with the fixed message and no lesson; a reply passes through researching, writing and designing and ends completed with the parsed plan and the merged sections; the lifecycle invariant is kept |
| `App.TutorApp.HandleReset` | App.tsx:49-54 | the topic becomes empty, the stage idle, and lesson and error are cleared |

## Left out

- The remote text and image calls, the API key taken from the environment,
  the prompt and system-instruction literals, and the request configuration
  (model names, temperature, aspect ratio). The calls' outcomes are
  parameters.
- The concurrency of the image fan-out. The calls are independent and
  `Promise.all` keeps their order, so the model is an index-aligned map.
- Overlapping searches. `HandleSearch` runs as one step. In the app, a
  reset does not cancel a search in flight: that search later sets its
  stages and lesson anyway. Interleavings of two searches are not
  modelled. The lifecycle invariant is proved for searches that do not
  overlap; with overlap it can break. Search A is in flight, the user
  resets and starts search B, A completes (its lesson, completed stage),
  then B's text call throws: the stage is error while `lessonData` still
  holds A's lesson.
- React state batching and rendering: JSX, styling, animations and the
  `LessonView` layout. Setters are plain field updates. The ghost
  `stageLog` records every stage that is set, including the ones batched
  into a single render.
- Diagnostics (`console.error`, `console.warn`).
- An inline part without a `data` field. The model assumes the payload is
  present; in the app such a part gives the URL
  `data:image/png;base64,undefined`.
- Base64 decoding of image payloads, and the MIME type of a part; the URL
  always says PNG, as in the code.
- UTF-16: strings are sequences of Unicode scalar values. All markers are
  ASCII, so the matches do not depend on the encoding.
- Truthiness beyond the cases the types allow. A missing reply text and an
  empty one both become `""`. A `uri` or `title` counts as present when it
  is a non-empty string.
