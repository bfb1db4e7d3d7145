# note-analyzer: verified model of the study tools

This project models the study tools of the note-analyzer web application in Dafny.

- **Text-extraction endpoint.** It classifies an uploaded file as an image, TXT, PDF or DOCX. It scrapes text out of the file, cleans it, and answers with JSON.
- **Results view.**
  - The graph-diagram card: node layout, edge trimming, label truncation, the title icon and the export table rows.
  - The self-test mode: a state machine over the combined question list, with scoring and a final percentage.
  - The multiple-choice panel.
  - The viva reveal flags.
  - The single-open accordions of the short and long questions.
- **Saved study sessions.** The local list that loading, saving, deleting and sharing update.

The project is split into these modules:

- `Base`: `Option`.
- `Analysis`: the analysis record the components receive.
- `JsText`: the JavaScript string behaviour the code relies on. This covers `\s`, `trim`, `endsWith`, `join`, UTF-16 `length` and the decimal form of integers.
- One module per component.

Code that updates state step by step is written as classes with methods:

- the self-test component;
- the session store;
- the MCQ panel, the viva list and the accordion;
- the layout loops;
- the request handler.

Each of these methods is proved against pure specification functions, and the properties are proved about those functions.

## Model

| member | source | states |
|---|---|---|
| GraphDiagram.Layout | src/components/results/GraphDiagramSection.tsx:48-103 | the positions map is the result of the layout's writes, last write wins, and it has an entry for exactly the node ids |
| GraphDiagram.ListLayout | src/components/results/GraphDiagramSection.tsx:54-62 | the linked-list loop leaves node i of n at slot i (x = 60 + w·i + w/2 with w = 480/max(n,1), y = 200) |
| GraphDiagram.CircleLayout | src/components/results/GraphDiagramSection.tsx:86-99 | the circle loop writes node i at the circle point for (i, n), in input order |
| GraphDiagram.GroupByLevel | src/components/results/GraphDiagramSection.tsx:65-70 | the level groups have a key for each level that occurs (`level ?? 0`), each holding that level's nodes in input order |
| GraphDiagram.SortedKeys | src/components/results/GraphDiagramSection.tsx:72 | the level keys come out in strictly ascending order |
| GraphDiagram.AscendingSorts | src/components/results/GraphDiagramSection.tsx:72 | the ascending key list holds exactly the set's keys and is strictly increasing |
| GraphDiagram.MaxLevel | src/components/results/GraphDiagramSection.tsx:73 | the deepest level is the maximum of the keys and 0 |
| GraphDiagram.PlaceRows | src/components/results/GraphDiagramSection.tsx:76-85 | the rows are placed level by level in key order, each with its own level's node count |
| GraphDiagram.PlaceRow | src/components/results/GraphDiagramSection.tsx:77-84 | one row's loop extends the map by that row's writes, x from the row width and y = 60 + level·h + 30 |
| GraphDiagram.SlotXInside | src/components/results/GraphDiagramSection.tsx:56-61 | a slot centre lies strictly between 60 and 540 |
| GraphDiagram.SlotXIncreasing | src/components/results/GraphDiagramSection.tsx:59 | later slots have strictly larger x |
| GraphDiagram.RowYIncreasing | src/components/results/GraphDiagramSection.tsx:74-82 | a smaller level gives a strictly smaller y whenever the deepest level is non-negative |
| GraphDiagram.AssignLastWrite | src/components/results/GraphDiagramSection.tsx:57-99 | when ids repeat, the last write of an id decides its position |
| GraphDiagram.LayoutCoversNodes | src/components/results/GraphDiagramSection.tsx:48-103 | every node id has a position, no other key appears, and no nodes give an empty map |
| GraphDiagram.LinkedListPosition | src/components/results/GraphDiagramSection.tsx:54-62 | a linked-list node not overwritten later sits at (slot x, 200), strictly inside the padding |
| GraphDiagram.LinkedListOrder | src/components/results/GraphDiagramSection.tsx:57-61 | with distinct ids, x strictly increases in input order and y is the same |
| GraphDiagram.CirclePosition | src/components/results/GraphDiagramSection.tsx:93-99 | a graph, directed or flowchart node sits at the circle point of its index and the node count |
| GraphDiagram.TreePosition | src/components/results/GraphDiagramSection.tsx:63-85 | a tree node sits at its rank within its level and the row of its level, the deepest level being at least 0 |
| GraphDiagram.TreeLevelsOrdered | src/components/results/GraphDiagramSection.tsx:74-82 | a node on a smaller level is drawn strictly higher |
| GraphDiagram.TreeLevelOrder | src/components/results/GraphDiagramSection.tsx:79-81 | nodes of one level keep their input order from left to right |
| GraphDiagram.TreeLoneNodeCentred | src/components/results/GraphDiagramSection.tsx:78-81 | a node alone on its level lands at x = 300 |
| GraphDiagram.TrimEdgeAlongLine | src/components/results/GraphDiagramSection.tsx:129-137 | `TrimEdge` puts the trimmed start 25/d of the way from the source centre, and the end stops 25 (undirected) or 33 (directed, as `IsDirected` says) before the target centre |
| GraphDiagram.TrimEdgeKeepsDirection | src/components/results/GraphDiagramSection.tsx:132-137 | the trimmed segment keeps the edge's direction exactly when the centres are further apart than the two offsets together |
| GraphDiagram.LabelAtMidpoint | src/components/results/GraphDiagramSection.tsx:150-154 | an edge label (`LabelPos`) sits at the midpoint of the trimmed segment, raised by 8 |
| GraphDiagram.DrawnLabel | src/components/results/GraphDiagramSection.tsx:150-157 | a label is drawn, with its text at `LabelPos`, if and only if it is present and not empty |
| GraphDiagram.VisibleEdges | src/components/results/GraphDiagramSection.tsx:123-126 | only edges whose two ends have positions are drawn, each with those positions |
| GraphDiagram.VisibleEdgesAppend | src/components/results/GraphDiagramSection.tsx:123-126 | edges are filtered one by one, so a skipped edge does not affect the others |
| GraphDiagram.VisibleEdgesComplete | src/components/results/GraphDiagramSection.tsx:124-126 | an edge is drawn if and only if both its ends have positions |
| GraphDiagram.DisplayLabel | src/components/results/GraphDiagramSection.tsx:185 | a label of up to 6 characters is shown whole, a longer one as its first 6 and an ellipsis, never more than 7 |
| GraphDiagram.DisplayLabelAsWritten | src/components/results/GraphDiagramSection.tsx:185 | the truncation with the suffix as the file spells it: a cut label becomes 9 characters |
| GraphDiagram.AsWrittenLabelTooLong | src/components/results/GraphDiagramSection.tsx:185 | "abcdefg" is shown as 9 characters, unlike the intended display |
| GraphDiagram.TypeIcons | src/components/results/GraphDiagramSection.tsx:30-43 | `TypeIcon` gives trees the tree icon, directed graphs and flowcharts the arrow, plain graphs the network icon |
| GraphDiagram.NodeRowsCons | src/components/results/GraphDiagramSection.tsx:221 | the node table body is the rows (`NodeRow`) of the nodes concatenated in order, with no separator |
| GraphDiagram.EdgeRowsCons | src/components/results/GraphDiagramSection.tsx:231 | the edge table body is the rows (`EdgeRow`) of the edges concatenated in order |
| GraphDiagram.LevelCellFaithful | src/components/results/GraphDiagramSection.tsx:221 | the level cell (`LevelCell`) is "-" exactly when the level is missing, and a non-negative level reads back as its value |
| GraphDiagram.EdgeLabelCellFaithful | src/components/results/GraphDiagramSection.tsx:231 | the edge label cell (`EdgeLabelCell`) is the label, or "-" when it is missing or empty |
| SelfTest.AllQuestionsLayout | src/components/results/SelfTestMode.tsx:38-55 | the test (`AllQuestions`) is all MCQs, then the first three short questions, then the first two viva questions, each in order |
| SelfTest.AllQuestionsShape | src/components/results/SelfTestMode.tsx:38-55 | question i is multiple-choice exactly when i is below the MCQ count, and there are at most five more questions than MCQs |
| JsText.TrimEmptyIffBlank | src/components/results/SelfTestMode.tsx:74 | `trim()` gives the empty string exactly when every character is whitespace |
| SelfTest.OpenAnswerCounts | src/components/results/SelfTestMode.tsx:74 | `IsCorrect` counts an open answer as correct exactly when it is not all whitespace |
| SelfTest.EnabledOpenSubmitCounts | src/components/results/SelfTestMode.tsx:240 | an open question whose Submit is enabled is scored as correct |
| SelfTest.EnabledChoiceSubmit | src/components/results/SelfTestMode.tsx:240 | Submit on an MCQ is enabled (`SubmitEnabled`) exactly when an option is selected, and scores it by comparison with the correct index |
| SelfTest.Scored | src/components/results/SelfTestMode.tsx:77-80 | a submission adds one to the total, and one to the correct count exactly when the answer is correct |
| SelfTest.ScoredBounded | src/components/results/SelfTestMode.tsx:77-80 | the correct count never exceeds the total |
| SelfTest.PercentageNearest | src/components/results/SelfTestMode.tsx:126 | the percentage (`Percentage`) is the nearest integer to 100·correct/total (halves up), between 0 and 100, 100 for all correct and 0 for none |
| SelfTest.Session.constructor | src/components/results/SelfTestMode.tsx:29-35 | the component starts idle with the combined question list |
| SelfTest.Session.Start | src/components/results/SelfTestMode.tsx:59-64 | starting sets the index and score to zero and clears completion, keeping the answer fields |
| SelfTest.Session.SubmitAnswer | src/components/results/SelfTestMode.tsx:66-81 | submitting shows feedback and scores the current question, keeping the invariant |
| SelfTest.Session.Next | src/components/results/SelfTestMode.tsx:83-92 | Next advances and clears the answer, or marks the test complete on the last question |
| SelfTest.Session.Restart | src/components/results/SelfTestMode.tsx:94-102 | restart puts every field back to its initial value |
| SelfTest.Session.SelectOption | src/components/results/SelfTestMode.tsx:191 | an option click is ignored while feedback is shown |
| SelfTest.Session.SetUserAnswer | src/components/results/SelfTestMode.tsx:220 | typing replaces the answer text and nothing else |
| ExtractText.ExtensionCase | supabase/functions/extract-text/index.ts:9-134 | for any base name, `.JPG` and `.HeIc` are image extensions, `.jpg.txt` is not, and `.txt`, `.pdf` and `.docx` are recognised (`IsTxt`, `IsPdf`, `IsDocx`) in lower case but not in upper case |
| ExtractText.UpperCaseExtension | supabase/functions/extract-text/index.ts:12 | an upper-case image extension after any name is recognised |
| ExtractText.MixedCaseExtension | supabase/functions/extract-text/index.ts:12 | a mixed-case image extension after any name is recognised |
| ExtractText.LastExtensionDecides | supabase/functions/extract-text/index.ts:12 | the pattern is anchored at the end, so only the last extension counts |
| ExtractText.SuffixMatchesAsWritten | supabase/functions/extract-text/index.ts:92-134 | `endsWith` is case-sensitive: a suffix matches itself and fails once its last letter differs |
| ExtractText.ImageExtensionIgnoresCase | supabase/functions/extract-text/index.ts:12 | an extension match (and so `IsImageFile` on the name) does not depend on the case of the name |
| ExtractText.ParenAt | supabase/functions/extract-text/index.ts:105 | a match starting at a position ends at the first `)` after it, with at least one character between, and there is at most one |
| ExtractText.ParenStrings | supabase/functions/extract-text/index.ts:105-108 | every parenthesised match yields a non-empty text without `)` |
| ExtractText.ParenStringsSound | supabase/functions/extract-text/index.ts:105-108 | every text found is the inside of a `(...)` match in the body |
| ExtractText.ParenStringsComplete | supabase/functions/extract-text/index.ts:105-108 | the inside of every match not overlapped by an earlier match is found, the first match always |
| ExtractText.ParenStringsFirst | supabase/functions/extract-text/index.ts:105-108 | the scan goes to the first match at or after the start, yields its inside first and resumes behind its `)`, so order is match order and jumped-over matches are left out |
| ExtractText.ParenStringsNone | supabase/functions/extract-text/index.ts:105-108 | with no match left, nothing more is found |
| ExtractText.KeptPdfStrings | supabase/functions/extract-text/index.ts:109 | exactly the texts longer than one code unit with an ASCII letter or digit are kept |
| ExtractText.KeptPdfStringsAppend | supabase/functions/extract-text/index.ts:109 | the filter keeps the order: the kept texts of two lists in a row are those of the first followed by those of the second |
| ExtractText.KeptPdfStringsOne | supabase/functions/extract-text/index.ts:109 | a single text is kept exactly when it passes the filter |
| ExtractText.ReadableRuns | supabase/functions/extract-text/index.ts:113 | every readable match is at least 10 characters of the readable class |
| ExtractText.ReadableRunsSound | supabase/functions/extract-text/index.ts:113 | every readable match is a maximal run of the readable class in the body, at least 10 long |
| ExtractText.ReadableRunsComplete | supabase/functions/extract-text/index.ts:113 | every maximal run of at least 10 readable characters is found |
| ExtractText.ReadableRunsFirst | supabase/functions/extract-text/index.ts:113 | the scan goes to the first long maximal run, yields it first and resumes at its end, so runs come in body order, each once |
| ExtractText.ReadableRunsNone | supabase/functions/extract-text/index.ts:113 | with no long maximal run left, nothing more is found |
| ExtractText.ReadableRunFound | supabase/functions/extract-text/index.ts:113 | any stretch of ten readable characters is found inside the maximal run that holds it |
| ExtractText.PdfTextHolds | supabase/functions/extract-text/index.ts:105-118 | every text kept by the first pass and every readable run stands, trimmed, as a substring of the PDF text (`PdfText`) |
| ExtractText.PdfJoinedHolds | supabase/functions/extract-text/index.ts:107-116 | a substring of the first pass's joined text, and every run appended after it with a space, stands in the text before the trim |
| ExtractText.JoinHolds | supabase/functions/extract-text/index.ts:110 | every part of a `join` stands in it |
| ExtractText.TrimInside | supabase/functions/extract-text/index.ts:118 | trimming a text and a piece of it leaves the trimmed piece a substring of the trimmed text |
| ExtractText.DocxRuns | supabase/functions/extract-text/index.ts:142 | every `<w:t>` match has attributes without `>` and a non-empty text without `<` |
| ExtractText.DocxAtExact | supabase/functions/extract-text/index.ts:142 | the match read at a position is exactly the well-formed `<w:t ...>text</w:t>` that stands there, so it is unique |
| ExtractText.DocxRunsSound | supabase/functions/extract-text/index.ts:142 | every match found stands in the body, well formed |
| ExtractText.DocxRunsComplete | supabase/functions/extract-text/index.ts:142 | every match not overlapped by an earlier match is found, the first match always |
| ExtractText.DocxRunsFirst | supabase/functions/extract-text/index.ts:142 | the scan goes to the first match at or after the start, yields it first and resumes behind it, so order is match order and jumped-over matches are left out |
| ExtractText.DocxRunsNone | supabase/functions/extract-text/index.ts:142 | with no match left, nothing more is found |
| ExtractText.StripDocxRun | supabase/functions/extract-text/index.ts:146 | stripping the tags (`StripTags`) from a match leaves exactly the element's text |
| ExtractText.DocxTextIsInnerTexts | supabase/functions/extract-text/index.ts:142-150 | the DOCX text (`DocxText`) is the element texts joined by single spaces |
| ExtractText.CollapseSpaces | supabase/functions/extract-text/index.ts:172 | the non-whitespace characters come out unchanged and in order, a leading whitespace run becomes one space, and only empty text collapses to empty |
| ExtractText.CollapseAround | supabase/functions/extract-text/index.ts:172 | a character that is not whitespace is kept in place and splits the collapse: the text before it and after it collapse separately |
| ExtractText.CollapseBlank | supabase/functions/extract-text/index.ts:172 | a non-empty whitespace run on its own becomes exactly one space |
| ExtractText.CollapseLeavesSingleSpaces | supabase/functions/extract-text/index.ts:172 | after the collapse the only whitespace is single spaces, never two in a row |
| ExtractText.ReplaceDisallowed | supabase/functions/extract-text/index.ts:173 | only kept characters remain, and text of kept characters is unchanged |
| ExtractText.Replacement | supabase/functions/extract-text/index.ts:173 | a kept character stays, any other becomes one space per UTF-16 unit (two beyond U+FFFF) |
| ExtractText.ReplaceDisallowedAppend | supabase/functions/extract-text/index.ts:173 | the replacement works character by character, in place: that of `a + b` is that of `a` then that of `b` |
| ExtractText.ReplaceDisallowedOne | supabase/functions/extract-text/index.ts:173 | a single character becomes its `Replacement` |
| ExtractText.ReplaceDisallowedLength | supabase/functions/extract-text/index.ts:173 | the result has one character per UTF-16 unit of the input |
| JsText.Trim | supabase/functions/extract-text/index.ts:174 | `trim()` leaves the slice of the text between its leading and its trailing whitespace: everything cut off is whitespace, and the slice neither starts nor ends with whitespace |
| ExtractText.CleanIsClean | supabase/functions/extract-text/index.ts:171-174 | cleaned text (`Clean`) has only kept characters and no space at either end |
| ExtractText.CleanKeepsPrinted | supabase/functions/extract-text/index.ts:171-174 | every kept character that is not whitespace survives the cleanup, in order, and no other such character appears (`Printed`) |
| ExtractText.CollapsePrinted | supabase/functions/extract-text/index.ts:172 | the collapse changes whitespace only |
| ExtractText.ReplacePrinted | supabase/functions/extract-text/index.ts:173 | the replacement turns only disallowed characters into spaces |
| ExtractText.TrimPrinted | supabase/functions/extract-text/index.ts:174 | `trim()` removes whitespace only |
| ExtractText.CleanKeepsNormalText | supabase/functions/extract-text/index.ts:171-174 | already-normal text passes through the cleanup unchanged |
| ExtractText.CleanCanLeaveDoubleSpace | supabase/functions/extract-text/index.ts:172-173 | because blanking follows the collapse, a control character beside a space (as in "a\x01 b") cleans to two spaces in a row, and cleaning again leaves one |
| ExtractText.Handle | supabase/functions/extract-text/index.ts:65-200 | the response for each branch in source order: preflight, form error, missing file, image (OCR, `IsImageFile`), TXT, PDF (`PdfText`, < 50), DOCX (`DocxText`, < 20), unsupported; each success goes through `Finish` (< 10 fails) and carries clean text of 10 or more code units |
| StudySessions.FormatRows | src/hooks/useStudySessions.ts:43-56 | the rows become sessions (`FromRow`) one for one, in the query's order |
| StudySessions.SavedSessionReadsBack | src/hooks/useStudySessions.ts:88-98 | a saved analysis read back gives the same title, notes and analysis |
| StudySessions.Without | src/hooks/useStudySessions.ts:134 | after a delete no session has the id, and a session stays exactly when its id differs |
| StudySessions.WithoutAppend | src/hooks/useStudySessions.ts:134 | the filter works piecewise, so the kept sessions keep their order |
| StudySessions.WithoutIdempotent | src/hooks/useStudySessions.ts:134 | deleting an id twice is deleting it once |
| StudySessions.FindSession | src/hooks/useStudySessions.ts:150 | a session with the id that no earlier session shares, and none exactly when no session has it |
| StudySessions.Stamp | src/hooks/useStudySessions.ts:165-169 | the new token is set on the sessions with the id, the others stay as they are |
| StudySessions.StampOnlyTouchesId | src/hooks/useStudySessions.ts:165-169 | stamping keeps every id and analysis, and changes only the matching sessions |
| StudySessions.ShareOutcomes | src/hooks/useStudySessions.ts:147-181 | `ShareResult` gives no link only when the found session has no token (`HasToken`) and the write failed, and then nothing changes |
| StudySessions.ShareTwiceSameLink | src/hooks/useStudySessions.ts:150-171 | once a link was made for a listed session, a second request returns the same link and changes nothing |
| StudySessions.ShareMissingIdNewEachTime | src/hooks/useStudySessions.ts:150-171 | for an id missing from the list, every request writes a new token and returns a different link |
| StudySessions.SessionStore.Fetch | src/hooks/useStudySessions.ts:28-69 | without a user the list empties, rows replace it, a failed read keeps it, and loading ends in every case |
| StudySessions.SessionStore.Save | src/hooks/useStudySessions.ts:71-118 | nothing is sent without a user; the result is true exactly when there is a user and the insert succeeds |
| StudySessions.SessionStore.Delete | src/hooks/useStudySessions.ts:120-145 | a successful delete filters out the id, a failed one changes nothing |
| StudySessions.SessionStore.ShareLink | src/hooks/useStudySessions.ts:147-181 | the link and the new list are those of the share function |
| McqSection.AfterSelect | src/components/results/MCQSection.tsx:20-27 | a click records that option for that question only, and is ignored while answers are shown |
| McqSection.ReselectReplaces | src/components/results/MCQSection.tsx:22-25 | a later choice replaces the earlier one |
| McqSection.OneSelectionPerQuestion | src/components/results/MCQSection.tsx:55 | a question has at most one selected option |
| McqSection.MarkingRules | src/components/results/MCQSection.tsx:56-87 | nothing is marked while hidden; when shown the correct option is checked, a wrong choice crossed, and no option both |
| McqSection.AtMostOneCross | src/components/results/MCQSection.tsx:83-87 | at most one option of a question is crossed |
| McqSection.OptionLetter | src/components/results/MCQSection.tsx:80 | the letter is the character `A` + option index |
| McqSection.OptionLettersDistinct | src/components/results/MCQSection.tsx:80 | different options get different letters, and the first 26 are A to Z |
| McqSection.McqPanel.Select | src/components/results/MCQSection.tsx:20-27 | the panel's selection becomes that of the selection function |
| McqSection.McqPanel.ToggleAnswers | src/components/results/MCQSection.tsx:35 | the toggle flips the reveal switch and keeps the selections |
| VivaQuestions.Flip | src/components/results/VivaQuestions.tsx:18-23 | a toggle flips the visibility of that entry and leaves every other entry as it was |
| VivaQuestions.FirstToggleReveals | src/components/results/VivaQuestions.tsx:16-22 | an entry never set is hidden, and the first toggle reveals it |
| VivaQuestions.FlipTwice | src/components/results/VivaQuestions.tsx:18-23 | two toggles of one entry restore every visibility |
| VivaQuestions.FlipsCommute | src/components/results/VivaQuestions.tsx:18-23 | toggles of different entries are independent |
| VivaQuestions.SeveralVisible | src/components/results/VivaQuestions.tsx:78 | revealing one answer keeps another revealed one visible |
| VivaQuestions.VivaLabel | src/components/results/VivaQuestions.tsx:56 | the label is `V` and the decimal digits of i + 1 |
| VivaQuestions.VivaList.ToggleAnswer | src/components/results/VivaQuestions.tsx:18-23 | the list's flags become those of the toggle function |
| Accordion.Click | src/components/results/ShortQuestions.tsx:26 | clicking the open question closes it; clicking another opens that one only |
| Accordion.AtMostOneOpen | src/components/results/LongQuestions.tsx:15-44 | among the questions at most one answer is rendered |
| Accordion.ClickTwiceFromCollapsed | src/components/results/LongQuestions.tsx:26 | from all collapsed, two clicks on the same question collapse it again |
| Accordion.AccordionList.constructor | src/components/results/ShortQuestions.tsx:15 | nothing is expanded at first |
| Accordion.AccordionList.ClickQuestion | src/components/results/LongQuestions.tsx:26 | a click sets the expanded index as the click function says |

## Left out

- Circular layout coordinates use `Math.cos`/`Math.sin`. The circle point for (index, count) is a parameter. Only the index order and the count passed are modelled.
- `Math.sqrt` in edge trimming. The distance d is a parameter with d > 0. The trimmed ends are stated as fractions along the line between the centres. Facts that need d·d = dx² + dy² (such as "25 away from the centre") are not proved. There is no zero-distance guard in the code, so none is modelled.
- TrimEdgeKeepsDirection: stated for the fractions along the line, not for Euclidean distances.
- Node levels are integers; a fractional `level` is not modelled.
- Node labels are code points. `slice(0, 6)` on UTF-16 units differs for characters beyond U+FFFF.
- Elsewhere, `length` is modelled in UTF-16 units where the code compares it (`Utf16Length`).
- `String(level)` for non-integral or exponent-form numbers is not modelled.
- The "Nodes:" and "Edges:" counts are the plain list lengths. The edge count includes skipped edges. It needs no model beyond `|edges|`.
- The print window, the HTML around the export rows, and React rendering are not modelled.
- Layout and edge coordinates are exact reals. The code computes IEEE doubles, so an equality such as a slot x of 480/7 holds in the model but is rounded in the source.
- GraphDiagram.VisibleEdges: the position lookups see own keys only. The source's `layout` is a plain object, so an edge end named like an `Object.prototype` member ("constructor", "toString") with no such node is found there and drawn with NaN coordinates, and a node id "__proto__" does not become an own key; the model skips such an edge and stores such an id like any other (this applies to `GraphDiagram.Layout` too).
- SelfTest.PercentageNearest: uses exact rationals, not floating point `Math.round((c / t) * 100)`. It could differ from the float result where the division rounds across a half.
- An empty question list makes the test view read `allQuestions[0]` and fail. SubmitAnswer requires a current question, so that path is not modelled.
- `Start` keeps the answer fields, as the code does. Its invariant is stated for a start from the idle state.
- The OCR call (network, API key, base64 encoding) is the `Ocr` input. A missing key or a failed response is `OcrError` with its message.
- The multipart form reading is the `Request` input. A `file` field that is a plain string rather than a file is not modelled.
- `TextDecoder` is not modelled. File bodies are given already decoded as code points.
- The CORS headers and logging are not modelled.
- The database, `crypto.randomUUID`, `window.location.origin`, the signed-in user and the toasts are inputs or left out.
- The refresh that `saveSession` starts after a successful insert is not awaited. It is a separate `Fetch` call in the model.
- What the database adds to a stored row (id, timestamps, token) is not modelled.
- McqSection.OptionLetter: requires 65 + index below U+D800, because a Dafny `char` cannot hold a lone surrogate that `fromCharCode` would give.
- Styling classes other than the check/cross marks and the open/rendered state are not modelled.

## Findings

| source | as written | input that shows it | evidently intended | confidence | as-written member | corrected member |
|---|---|---|---|---|---|---|
| src/components/results/GraphDiagramSection.tsx:185 | the truncation suffix is the three characters U+00E2 U+20AC U+00A6 (the UTF-8 bytes of `…` read as Windows-1252) | a node label "abcdefg" is shown as "abcdef" followed by those three characters, 9 characters in all | one `…`, so a cut label is 7 characters | medium, not executed; the same mis-decoding appears in two other files, so it may come from how the files were saved | GraphDiagram.AsWrittenLabelTooLong | GraphDiagram.DisplayLabel |
