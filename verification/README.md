# CJK_Translate_GPT core, modelled in Dafny

This project models the core of CJK_Translate_GPT, a command-line translator between Chinese, Japanese, Korean and English built on a chat-completion API:

- the token-usage ledger and its billing (`TokenTracker`);
- the paragraph-to-page grouping shared by the text and Word readers (`Pagination`, `TxtProcessor`, `DocxProcessor`);
- the prompt composition, numbered-content detector and text cleaning of the PDF reader (`PdfProcessor`);
- the translation driver (`TranslationService`):
  - model choice;
  - error classification;
  - the split-and-retry loop of `generate_text`;
  - the page loop of `translate_document`;
- the argument validators and professor/API-key lookup (`Utils`);
- the routing of the finished translation to a file (`FileOutput`).

Everything is pure functions over immutable values. The chat-completion call is an oracle parameter from a request to a reply. The environment is an ordered list of variables. The clock, the output-file-name generator and the page-range parser are parameters too. Costs and proportions are exact rationals (`real`).

Shared vocabulary lives in `wrappers.dfy`, `text.dfy` and `config.dfy`:

- `Option` and `Result`;
- Python's `in`, `split`, `join`, `strip`, `replace` and `lower` on strings;
- `LANGUAGE_MAP`, `AVAILABLE_MODELS`, `DEFAULT_MODEL` and `CONTEXT_PERCENTAGE`.

The model follows the code as written. In particular:

- A too-long part is cut at the raw character midpoint. No paragraph or sentence boundary is sought.
- The work list is a stack: `pop()` takes the last part, so the right half of a split part is translated first (see Findings). The document loop (`TranslateDocument`) uses `generate_text` and `translate_text` exactly as written. The corrected versions (`GenerateText`, `TranslateText`, `TranslateDocumentCorrected`) are kept beside them.
- There is no retry with back-off and no delay between pages. Any raised error ends the document.
- `record_usage` has no pricing-model override. It bills the model name it is given.
- The ledger has no monthly roll-up and no budget queries.
- `translate_text` passes `record_usage` a keyword that its signature lacks (see Findings).

## Model

| member | source | states |
|---|---|---|
| Config.LanguageNamesDistinct | src/config.py:8-13 | two different language codes never name the same language |
| TokenTracker.AddUsage | src/token_tracker.py:41-47 | adding a call grows each token total and the cost by exactly the call's amounts, and the call count by one |
| TokenTracker.AddUsageOrderIndependent | src/token_tracker.py:41-47 | the statistics do not depend on the order in which two calls are added |
| TokenTracker.RateFor | src/token_tracker.py:119-124 | a priced model is billed at its own rate; an unpriced one at gpt-4o-mini's rate, or at the built-in 0.165/0.66 when gpt-4o-mini is unpriced too |
| TokenTracker.CalculateCosts | src/token_tracker.py:117-131 | input and output costs are the token counts times the per-million rates, and the total is their sum |
| TokenTracker.UnknownModelBilledAsFallback | src/token_tracker.py:119-122 | an unknown model costs exactly what the fallback model would |
| TokenTracker.CostsAreAdditive | src/token_tracker.py:126-129 | billing two calls separately costs the same as billing their summed tokens |
| TokenTracker.UpdatePricing | src/token_tracker.py:250-252 | the updated model gets the new rates, every other model keeps its rates, and the set of priced models gains only that model |
| TokenTracker.UpdatePricingEffect | src/token_tracker.py:250-252 | the next bill for the updated model uses the new input price; other models' bills change only when the fallback model's price changes and they are unpriced |
| TokenTracker.RecordUsage | src/token_tracker.py:133-197 | the record carries the call's figures and its bill; lifetime, per-model and per-day aggregates each grow by the call; other models and days are untouched; the history gains the record at its end |
| TokenTracker.GetDailyUsage | src/token_tracker.py:207-217 | the totals recorded for the asked date (today when none is given), all zero for a day without usage |
| TokenTracker.DailyUsageAfterRecord | src/token_tracker.py:174-188 | after recording, the day's usage grows by the call and every other day reads as before |
| TokenTracker.GetUsageSummary | src/token_tracker.py:199-205 | the summary holds the lifetime totals, the per-model breakdown and the last ten records of the history, oldest first |
| TokenTracker.FreshLedgerConsistent | src/token_tracker.py:97-107 | a fresh ledger is consistent: lifetime totals equal the sums over models, over days and over the history |
| TokenTracker.DailySumAfterRecord | src/token_tracker.py:174-188 | the sum over all days grows by exactly the call's totals |
| TokenTracker.ModelSumAfterRecord | src/token_tracker.py:157-172 | the sum over all models grows by exactly the call's totals |
| TokenTracker.CallSumAfterRecord | src/token_tracker.py:157-172 | the models' call counts add up to one more than before |
| TokenTracker.RecordUsagePreservesConsistency | src/token_tracker.py:150-191 | recording a call keeps lifetime totals equal to the sums over models, over days and over the history, and call counts equal to the history's length |
| TokenTracker.ThreeCallScenario | src/token_tracker.py:133-197 | three gpt-4o calls at default prices give 525 tokens, 0.0028875 dollars, three calls, all on their day |
| Pagination.JoinEach | src/base_text_processor.py:40 | each page is its group's paragraphs joined by a blank line, one page per group |
| Pagination.Group | src/base_text_processor.py:35-49 | the grouping loop as a recursion over the remaining paragraphs, closing the current page when the next paragraph would push the counter past the target |
| Pagination.PagesOf | src/base_text_processor.py:35-53 | the joined groups, or the one joined page when no group was made |
| Pagination.SplitTextIntoPages | src/base_text_processor.py:15-55 | `[""]` for no paragraphs; otherwise at least one and at most one page per paragraph, and rejoining the pages gives back the rejoined paragraphs |
| Pagination.GroupCovers | src/base_text_processor.py:35-49 | the grouping loop only appends pages, never closes an empty one, and its pages hold exactly the paragraphs in order |
| Pagination.GroupIsGreedy | src/base_text_processor.py:35-49 | every page the loop closes fits the target unless it is one paragraph, and every break was forced by the counter |
| Pagination.ExtendGreedy | src/base_text_processor.py:39-42 | closing a page at a forced break keeps all pages within the target and all earlier breaks forced |
| Pagination.PageGroupsSpec | src/base_text_processor.py:31-49 | the groups partition the paragraphs in order, are non-empty, exist whenever a paragraph does, respect the target unless single, and break only when forced |
| Pagination.PageSizeBound | src/base_text_processor.py:39-45 | a page of several paragraphs is at most target+2 characters (at most target for the first page), because the counter omits a separator after each break |
| Pagination.PagesOfSpec | src/base_text_processor.py:47-53 | the fallback single page is never needed: the pages are exactly the joined groups, and rejoining them loses nothing |
| Pagination.GroupCountBound | src/base_text_processor.py:35-49 | non-empty groups are never more than the paragraphs they hold |
| Pagination.JoinFlatten | src/base_text_processor.py:40 | joining the joined groups is joining all their paragraphs |
| Pagination.ParseTextIntoParagraphs | src/base_text_processor.py:58-82 | no paragraphs exactly when the content is blank; every paragraph is non-empty and stripped |
| Pagination.ParagraphFallbacksUnreachable | src/base_text_processor.py:72-80 | for non-blank content the single-newline and raw-content fallbacks are never taken: the paragraphs are the stripped non-blank blocks between blank lines |
| TxtProcessor.ProcessTxt | src/txt_processor.py:26-33 | exactly one page, the stripped content; it is empty exactly when the file is blank, and otherwise a stripped block of the file |
| TxtProcessor.ProcessTxtWithPages | src/txt_processor.py:53-96 | at least one page, and `[""]` for a blank file |
| TxtProcessor.TxtPagesLossless | src/txt_processor.py:59-93 | a non-blank file has paragraphs, no more pages than paragraphs, and its pages rejoined equal its paragraphs rejoined |
| TxtProcessor.IsTxtFileIgnoresCase | src/txt_processor.py:103-105 | the `.txt` test does not depend on letter case |
| TxtProcessor.IsTxtFile | src/txt_processor.py:103-105 | a path is a text file when its lower-case form ends in `.txt` |
| DocxProcessor.KeptParagraphs | src/docx_processor.py:31-35 | kept paragraphs are non-empty and stripped, and none is kept exactly when every document paragraph is blank |
| DocxProcessor.KeptParagraphsInOrder | src/docx_processor.py:31-35 | each document paragraph contributes its strip, unless blank, in its own place between what the paragraphs before and after it contribute |
| Text.StrippedNonBlankInOrder | src/base_text_processor.py:72 | `[p.strip() for p in parts if p.strip()]` keeps each non-blank piece, stripped, in its own place, and drops each blank one |
| DocxProcessor.ProcessDocx | src/docx_processor.py:31-45 | one page, empty exactly when every paragraph is blank |
| DocxProcessor.ProcessDocxWithPages | src/docx_processor.py:75-108 | at least one page, `[""]` with nothing kept, and the pages rejoined equal the kept paragraphs rejoined |
| DocxProcessor.SinglePageIsRejoinedPages | src/docx_processor.py:40-42 | the single-page reading is the paged reading rejoined |
| DocxProcessor.TxtAndDocxDisjoint | src/docx_processor.py:123-125 | no path is both a Word file and a text file |
| DocxProcessor.IsDocxFile | src/docx_processor.py:123-125 | a path is a Word file when its lower-case form ends in `.docx` or `.doc` |
| PdfProcessor.DetectNumberedContent | src/pdf_processor.py:16-37 | text is numbered when a circled or Chinese numeral mark, a bracketed number or a numbered line occurs somewhere in it |
| PdfProcessor.CircledNumeralIsNumbered | src/pdf_processor.py:29 | a circled numeral anywhere makes the text numbered |
| PdfProcessor.BracketedNumberIsNumbered | src/pdf_processor.py:25 | a bracketed number `[n]` anywhere makes the text numbered |
| PdfProcessor.NoNumeralsNotNumbered | src/pdf_processor.py:16-37 | text without ASCII digits, circled numerals or Chinese numerals is never detected as numbered |
| PdfProcessor.Truncate | src/pdf_processor.py:44 | Python's `int()` on a rational: truncation toward zero |
| PdfProcessor.SliceFrom | src/pdf_processor.py:44 | Python's `s[start:]`: a suffix of the right length for every start, negative ones counting from the end |
| PdfProcessor.SourceContext | src/pdf_processor.py:44 | the abstract when present, otherwise the tail of the previous page after the given share, which is a suffix of it |
| PdfProcessor.ContextStart | src/pdf_processor.py:44 | for a share between 0 and 1 the cut index lies within the page |
| PdfProcessor.DefaultContextKeepsTail | src/pdf_processor.py:44 | with share 0.65 and no abstract, a ten-character page gives its last four characters |
| PdfProcessor.LastFive | src/pdf_processor.py:56 | the last five lines, or all of them when fewer |
| PdfProcessor.LastNumberedLine | src/pdf_processor.py:59-64 | none exactly when no line carries a number pattern; otherwise one of the lines that does |
| PdfProcessor.NumberingHint | src/pdf_processor.py:53-66 | a hint is produced only with a previous translation and numbered page text, and it opens with the fixed lead-in |
| PdfProcessor.NumberingHintQuotesLastNumberedLine | src/pdf_processor.py:53-66 | when asked for, the hint exists exactly when a numbered line is among the last five, and quotes the last such line |
| PdfProcessor.ContextParts | src/pdf_processor.py:48-66 | at most two non-empty context lines: the source context first when present, the hint last when there is one (two lines exactly when both are present), at most one line without a hint, none exactly when there is neither |
| PdfProcessor.Prompt | src/pdf_processor.py:68-73 | the prompt opens with the page under its header, and carries a context block exactly when there are context lines; the block is the context header followed by the one line, or by the two lines separated by a newline |
| PdfProcessor.GenerateProcessText | src/pdf_processor.py:40-73 | every prompt opens with the current page under its header |
| PdfProcessor.HintClosesPrompt | src/pdf_processor.py:46-73 | a numbering hint ends the prompt: after the source context on its own line, or right after the context header when there is no source context |
| PdfProcessor.SourceContextAlone | src/pdf_processor.py:46-73 | without a numbering hint, a non-empty source context is the whole context block, even when a previous translation was given |
| PdfProcessor.PromptWithoutContext | src/pdf_processor.py:68-73 | the prompt is the bare page exactly when there is neither source context nor hint |
| PdfProcessor.AbstractOpensContext | src/pdf_processor.py:44-50 | a non-empty abstract is the first context line, whatever the previous page |
| PdfProcessor.NoPreviousTranslationNoHint | src/pdf_processor.py:53 | without a previous translation the context block is the source context alone |
| PdfProcessor.TakeDigits | src/pdf_processor.py:121 | the longest prefix made only of digits |
| PdfProcessor.CidAtStart | src/pdf_processor.py:121 | a match at the start is longer than the `(cid:` lead it begins with |
| PdfProcessor.CidAtStartMatches | src/pdf_processor.py:121 | a prefix is a whole `\(cid:\d+\)` match (lead, one or more digits, `)`) exactly when its length is the one `CidAtStart` returns; no match is found exactly when no prefix is one |
| PdfProcessor.RemoveCid | src/pdf_processor.py:121 | removing CID references never lengthens the text or adds characters |
| PdfProcessor.RemoveCidKeepsParenFree | src/pdf_processor.py:121 | text without `(` passes through unchanged in front of whatever follows it |
| PdfProcessor.RemoveCidDropsReference | src/pdf_processor.py:121 | a reference at the front is dropped whole and removal carries on after it |
| PdfProcessor.RemoveCidRemovesReference | src/pdf_processor.py:121 | the text before the first `(` is kept, the reference that follows is removed, and the rest is cleaned in turn |
| PdfProcessor.RemoveCidOfCidFree | src/pdf_processor.py:121 | text without `(cid:` is left unchanged |
| PdfProcessor.RemoveCidIsSinglePass | src/pdf_processor.py:121 | one left-to-right pass: removing an inner reference can assemble a new one that survives the pass |
| PdfProcessor.CleanText | src/pdf_processor.py:104-126 | empty stays empty; the result has no NUL, BOM or tab, no double space, no outer whitespace, and no character that was not in the input or a space |
| PdfProcessor.CleanTextKeepsCleanText | src/pdf_processor.py:114-126 | text that is already clean is returned unchanged |
| PdfProcessor.CleanTextIsRemoveCid | src/pdf_processor.py:118-126 | when CID removal alone leaves clean text, cleaning is exactly CID removal |
| PdfProcessor.CleanTextNotIdempotent | src/pdf_processor.py:121 | cleaning twice can differ from cleaning once: `((cid:1)cid:2)` cleans to `(cid:2)` and then to nothing |
| TranslationService.GetModel | src/translation_service.py:34-37 | the default model when offered, otherwise the first offered model, and a failure on an empty list |
| TranslationService.DefaultModelPreferred | src/translation_service.py:34-37 | the default model is chosen exactly when it is offered, and it is chosen from the configured list |
| TranslationService.Classify | src/translation_service.py:135-149 | the branch an error takes: each keyword group wins exactly when no earlier group matched, ignoring case |
| TranslationService.HandleTranslationError | src/translation_service.py:129-149 | over-long context gives the sentinel and nothing else does; every other error is raised with its original message at the end |
| TranslationService.RaisedTextNamesKind | src/translation_service.py:138-149 | the raised text tells which branch raised it |
| TranslationService.ClassifyIgnoresCase | src/translation_service.py:135-144 | messages equal up to letter case are classified alike |
| TranslationService.ContextLengthWins | src/translation_service.py:135-137 | a message about maximum context length is never raised, whatever else it mentions |
| TranslationService.TranslateText | src/translation_service.py:116-127 | the reply's content, `""` for a reply without content, the sentinel for an over-long context, and an error for every other failure |
| TranslationService.TranslateTextAsWritten | src/translation_service.py:99-127 | without a usage report the call behaves as the corrected one |
| TranslationService.UsageReportFailsTranslation | src/translation_service.py:99-107 | a reply with content and a usage report fails, as written, with `API call failed with TypeError: ...`, while the corrected call returns the content |
| TranslationService.TypeErrorIsOtherError | src/translation_service.py:135-149 | the `TypeError` text matches none of the handler's keywords |
| TranslationService.PagePromptHasNoHint | src/translation_service.py:151-155 | a page's prompt never carries a numbering hint: it is the page plus, when present, the source context |
| TranslationService.TranslatePageText | src/translation_service.py:151-155 | a page is translated through the prompt built from the abstract, the page and the previous page at the configured context share, with no previous translation |
| TranslationService.TranslatePageTextAsWritten | src/translation_service.py:151-155 | the same prompt sent through `translate_text` as written |
| TranslationService.Bisect | src/translation_service.py:171-172 | the halves rebuild the part, the left one has half its length rounded down, and both are shorter when the part has two characters or more |
| TranslationService.BisectShort | src/translation_service.py:171-172 | a part shorter than two characters cuts into an empty left half and itself |
| TranslationService.Then | src/translation_service.py:163-176 | a sequence of runs finishes exactly when both finish, with both results in order, and stops at the first error |
| TranslationService.ThenAssociates | src/translation_service.py:163-176 | sequencing runs is associative |
| TranslationService.Emit | src/translation_service.py:173-176 | the kept line is the translation when non-empty, and the page's error marker exactly in place of an empty one |
| TranslationService.ErrorMarker | src/translation_service.py:174 | the line recorded for an empty translation, naming the page counted from one |
| TranslationService.Banner | src/translation_service.py:178 | the heading that opens a page's text, naming the page counted from one |
| TranslationService.MarkersNamePage | src/translation_service.py:174-178 | two pages get the same error marker, or the same banner, exactly when they are the same page |
| TranslationService.FirstPageShownAsOne | src/translation_service.py:174-178 | page index 0 is shown as page 1 in both the error marker and the banner |
| TranslationService.PushHalves | src/translation_service.py:172 | the halves go on the end of the work list, the one taken next last; as written that is `extend([left, right])` |
| TranslationService.Drain | src/translation_service.py:163-176 | the loop, in either order, only appends to the results it has gathered |
| TranslationService.SplitKeepsMeaning | src/translation_service.py:169-172 | replacing a too-long part by its halves does not change what the work list means |
| TranslationService.DrainSound | src/translation_service.py:163-176 | the loop, in either order and unless out of iterations, ends with the gathered results followed by the work list's meaning |
| TranslationService.DrainComplete | src/translation_service.py:163-176 | given the iterations the work list needs, the loop ends with its meaning |
| TranslationService.DrainMeaning | src/translation_service.py:160-176 | started on one part, the loop ends with that part's meaning or runs out of iterations, and it finishes when enough are given |
| TranslationService.Expected | src/translation_service.py:160-176 | reference meaning of one part, by recursion on its length: its line, or the lines of its halves in the order they are taken, the first error, or no end for a part too short to cut |
| TranslationService.ExpectedLinesNonEmpty | src/translation_service.py:173-176 | every line a finished part yields is non-empty |
| TranslationService.AsWrittenIsReversed | src/translation_service.py:163-176 | as written a part finishes exactly when it finishes in the intended order, and its lines are the intended lines back to front |
| TranslationService.AsWrittenStepWithoutUsageReport | src/translation_service.py:151-155 | on a part whose reply reports no usage, the step as written is the corrected step |
| TranslationService.PageText | src/translation_service.py:178 | every finished page opens with its banner |
| TranslationService.PageTextMeaning | src/translation_service.py:157-178 | in either order a page's text is its banner followed by the part's lines; an error is the first failing part's; with enough iterations it always ends |
| TranslationService.GenerateText | src/translation_service.py:157-178 | every finished page opens with its banner |
| TranslationService.GenerateTextAsWritten | src/translation_service.py:157-178 | every finished page opens with its banner |
| TranslationService.GenerateTextMeaning | src/translation_service.py:157-178 | corrected, a page's text is its banner followed by the recursive halving's lines, left before right; an error is the first failing part's; with enough iterations it always ends |
| TranslationService.GenerateTextAsWrittenMeaning | src/translation_service.py:157-178 | as written, a finished page's text is its banner followed by the intended lines back to front; an error is the first failing part's; with enough iterations it always ends |
| TranslationService.RightHalfFirst | src/translation_service.py:164-172 | as written, a part split once yields the right half's line before the left half's |
| TranslationService.LeftHalfFirst | src/translation_service.py:164-172 | corrected, a part split once yields the left half's line before the right half's |
| TranslationService.SwappedHalvesExample | src/translation_service.py:164-172 | the page "ab", too long as a whole, comes out as "b","a" as written and "a","b" corrected |
| TranslationService.ShortPartNeverFinishes | src/translation_service.py:169-172 | a one-character part that is always too long keeps the loop running forever |
| TranslationService.SelectOutputFormat | src/translation_service.py:187-198 | pdf, txt or file by the output file's extension ignoring case; txt for auto-save without one; console otherwise; each exactly in its case |
| TranslationService.PdfAndTxtExclusive | src/translation_service.py:189-192 | no name ends in both `.pdf` and `.txt`, so the order of the tests does not matter |
| TranslationService.SelectPages | src/translation_service.py:200-202 | all pages without a range; otherwise islice's pages from start to end inclusive, its bounds clamped to `Py_ssize_t` and then clipped to the document; islice's stop error exactly when the stop bound is -1, checked first, and its indices error exactly for a negative start or a stop below -1 otherwise |
| TranslationService.ClampSsize | src/translation_service.py:202 | a bound inside `Py_ssize_t` is kept, one above it reads as `sys.maxsize` and one below it as the least `Py_ssize_t` |
| TranslationService.StopCheckedFirst | src/translation_service.py:202 | `end == -2` gives the stop error whatever the start; `end == -3` with a negative start gives the indices error |
| TranslationService.HugeBoundsClamped | src/translation_service.py:202 | a stop beyond `sys.maxsize` keeps every page from the start on, a start beyond it keeps none, a stop below the least `Py_ssize_t` is the indices error; for a document shorter than `sys.maxsize` the kept pages are exactly those from start to end, clipped |
| TranslationService.TranslatePages | src/translation_service.py:204-213 | a finished loop yields one text per page |
| TranslationService.FinishedPageByPage | src/translation_service.py:204-213 | each text of a finished loop is its page translated with the page before it and its own number |
| TranslationService.FailingPage | src/translation_service.py:204-213 | the page whose error ends the loop is one of the pages |
| TranslationService.RaisedAtFailingPage | src/translation_service.py:204-213 | a raised loop raised exactly the error of the failing page |
| TranslationService.FinishedBeforeFailingPage | src/translation_service.py:204-213 | every page before the failing one translated |
| TranslationService.TranslateSelected | src/translation_service.py:200-213 | a finished loop has one text per selected page, and a bad range raises islice's error |
| TranslationService.TranslateDocument | src/translation_service.py:180-213 | as written, a finished document has one text per selected page, and a bad range raises islice's error |
| TranslationService.TranslateDocumentCorrected | src/translation_service.py:180-213 | corrected, a finished document has one text per selected page, and a bad range raises islice's error |
| TranslationService.DocumentPageAt | src/translation_service.py:204-211 | page `k` of a finished as-written page loop is `generate_text` as written of page `k`, with page `k-1` as context and number `start + k` |
| TranslationService.CorrectedDocumentPageAt | src/translation_service.py:204-211 | page `k` of a finished corrected page loop is the corrected `generate_text` of page `k` |
| TranslationService.DocumentPageByPage | src/translation_service.py:204-211 | each page of a finished document is that page's `generate_text` as written, with the previous page as context and its number in the range |
| TranslationService.CorrectedDocumentPageByPage | src/translation_service.py:204-211 | each page of a finished corrected document is that page's corrected `generate_text` |
| Utils.ReplaceUnsafe | src/utils.py:16 | each character is kept when it is a word character, a dash or a dot, and replaced by `_` otherwise |
| Utils.MakeSafeFilename | src/utils.py:13-21 | the result has only lower-case name characters, no doubled underscore, no underscore at either end, and is no longer than the name |
| Utils.SafeFilenameFixpoint | src/utils.py:13-21 | a name that is already safe is its own safe name |
| Utils.MakeSafeFilenameIdempotent | src/utils.py:13-21 | making a name safe twice is making it safe once |
| Utils.DigitRun | src/utils.py:26 | the length of the leading run of digits |
| Utils.ScanMatchesPattern | src/utils.py:26 | the scan accepts exactly digits, optionally a dash and digits, optionally one final newline |
| Utils.ScanAcceptsRange | src/utils.py:26 | every page number or range is accepted, with or without a final newline |
| Utils.ScanOnlyAcceptsRange | src/utils.py:26 | whatever the scan accepts is a page number or range, possibly with one final newline |
| Utils.ValidatePageNums | src/utils.py:24-28 | the value is returned unchanged exactly when it matches the pattern, and the fixed error otherwise |
| Utils.PageNumsExamples | src/utils.py:24-28 | "1,3" is rejected and "2-5" followed by a newline is accepted |
| Utils.ParseLanguageCode | src/utils.py:31-46 | two known codes for different languages give their names in order; a wrong length, an unknown code or a repeated language gives the matching error |
| Utils.LanguageCodeIgnoresCase | src/utils.py:36-37 | codes equal up to letter case parse alike |
| Utils.LanguageCodeExample | src/utils.py:31-46 | "ce" gives Chinese to English |
| Utils.EnvGet | src/utils.py:125 | the value of a variable that is set, and none exactly when it is not |
| Utils.ProfessorOf | src/utils.py:59-76 | an entry keeps the configured name, its safe name and the key variable names of its id |
| Utils.IndexOfSafeName | src/utils.py:96-97 | the position of the entry with that safe name, none exactly when there is none |
| Utils.Put | src/utils.py:70-76 | storing under a safe name replaces the entry with that safe name in place or appends, and keeps every other entry |
| Utils.LoadFrom | src/utils.py:58-76 | the scan over the environment's variables in order: a name variable whose key variable is set stores its entry under its safe name; the table keeps safe names distinct |
| Utils.LoadProfessorConfig | src/utils.py:49-78 | the table never holds two entries with the same safe name |
| Utils.LoadedProfessorsAreConfigured | src/utils.py:58-76 | every entry comes from a `PROF_<id>_NAME` variable whose key variable is set |
| Utils.ConfiguredProfessorsAreLoaded | src/utils.py:58-76 | every name variable whose key variable is set has an entry under its safe name |
| Utils.FindProfessor | src/utils.py:95-104 | a found entry matches by safe name or by full name ignoring case; none means no entry matches either way |
| Utils.SafeNameFirst | src/utils.py:96-97 | a safe-name match wins over a full-name match of another entry |
| Utils.KeyFor | src/utils.py:124-139 | the non-empty primary key when set, otherwise the non-empty backup key, otherwise the error naming the professor and the primary variable, always with the full name |
| Utils.GetApiKey | src/utils.py:81-139 | a returned key is the key of a loaded professor matching the asked name by safe name or by full name ignoring case; a professor with that safe name is the one used; a found professor's result is its key lookup, and the no-key error names it; an unknown professor gives the not-found error |
| Utils.ApiKeyComesFromEnv | src/utils.py:124-133 | a returned key is non-empty and set in the environment, under the primary variable, or under the backup variable only when the primary is unset or empty; the name is the configured name |
| FileOutput.PdfParagraphs | src/file_output.py:63-67 | the PDF's paragraphs are non-empty and stripped, and there are none exactly when the content is blank |
| FileOutput.PdfParagraphsInOrder | src/file_output.py:63-67 | the pieces between blank lines rebuild the content, and each gives its strip, unless blank, in its own place among the paragraphs |
| FileOutput.NoParagraphIffBlank | src/file_output.py:64-66 | splitting at blank lines leaves no non-blank piece exactly when the content is blank |
| FileOutput.TextPath | src/file_output.py:123-124 | the text path ends in `.txt` ignoring case, extends the given path, equals it exactly when it already ended so, and is otherwise the path with `.txt` appended |
| FileOutput.TextPathIdempotent | src/file_output.py:123-124 | completing a text path twice completes it once |
| FileOutput.FallbackPath | src/file_output.py:87 | a path without `.pdf` is kept as it is |
| FileOutput.FallbackReplacesEach | src/file_output.py:87 | every `.pdf` is replaced: the text before the first one is kept, that one becomes `.txt`, and the rest is replaced in turn |
| FileOutput.FallbackOfStem | src/file_output.py:87 | when `.pdf` occurs only as the extension, the fallback swaps it for `.txt` |
| FileOutput.UpperCaseExtensionKept | src/file_output.py:87 | an upper-case `.PDF` is not replaced, so the text fallback overwrites the PDF's own path |
| FileOutput.Target | src/file_output.py:104-112 | the output file when given, else the generated name when auto-saving an input file, else no target, each exactly in its case |
| FileOutput.SaveToPath | src/file_output.py:119-125 | a PDF exactly for a `.pdf` path with a working writer; otherwise the content as text, at the fallback path for `.pdf`, else at exactly the text path: the path itself when it ends in `.txt` ignoring case, the path with `.txt` appended otherwise |
| FileOutput.SaveTranslationOutput | src/file_output.py:96-125 | blank content saves nothing; without a target nothing is saved; otherwise the content goes to the target |
| FileOutput.FormatAgreesWithSave | src/file_output.py:96-125 | the format the translator reports matches the file saved, except auto-save without an input file, which reports txt and saves nothing |
| FileOutput.NamedOutputSaved | src/file_output.py:105-106 | with an output file named, the format and the saved file agree |
| FileOutput.AutoSaveWritesGeneratedName | src/file_output.py:107-109 | auto-saving writes the text under the generated name when that name keeps `.txt` |

## Left out

- The chat-completion client, the system and user prompt templates of `_create_translation_prompt`, and the `print`/`logging` calls of `translate_text`. The call is an oracle from the output format and the prompt to a reply.
- The recording of usage inside `translate_text`. The corrected `TranslationService.TranslateText` leaves the ledger update to `TokenTracker.RecordUsage` and does not thread a ledger through the call. For the call as written, whether a reply reports usage is a parameter.
- PDF, Word and image extraction (pdfminer layout walking, python-docx loading, the image-to-text module), `process_page` included. A document is the list of its extracted page texts.
- reportlab rendering, the per-paragraph ASCII fallback of `save_to_pdf` (src/file_output.py:72-77), file writes and `mkdir`. A save is described by a `Saved` value, and whether the PDF writer works is a parameter.
- JSON persistence of the pricing and usage files and `datetime.now()`. Date and timestamp are parameters, and the default pricing map is a constant.
- `print_usage_report`, `to_dict` and the other display helpers, which only format output.
- `get_available_models`, `extract_page_nums` and `generate_output_filename` are not defined in the source; their results are parameters.
- The command-line front end (argument parsing, interactive prompts, entry points).
- The `translated_context_percentage` parameter of `generate_process_text`, which the function never reads.
- Floating point: costs and the context share are exact rationals, so rounding in sums and in `len * 0.65` is not modelled.
- Unicode: `\w`, `\d`, `str.lower` and `str.upper` are modelled on ASCII letters, digits and `_` only; whitespace for `strip` and `\s` is Python's whitespace set. Python's `\d` also matches every other Unicode decimal digit, such as the full-width "１".
- PdfProcessor.NoNumeralsNotNumbered: "digit" means an ASCII digit, so text whose only digits are full-width, such as "１　", which the source detects as numbered, falls outside the model's patterns.
- PdfProcessor.CidAtStart: the digits of `(cid:\d+)` are ASCII digits, so "(cid:１２)", which the source removes, is kept by `RemoveCid`. Its own ensures states only the length; what the match is is stated by `CidAtStartMatches`.
- Utils.ValidatePageNums: the digits are ASCII digits, so "１２", which the source returns unchanged, is rejected.
- TranslationService.Drain: the loop runs on an iteration budget (`fuel`). Running out is the separate outcome `Exhausted`, which stands for the source looping for ever (see `ShortPartNeverFinishes`).
- TranslationService.GenerateText: its own ensures states only the banner; what follows the banner is stated by `GenerateTextMeaning`.
- TranslationService.GenerateTextAsWritten: its own ensures states only the banner; what follows the banner is stated by `GenerateTextAsWrittenMeaning`.
- TranslationService.PageText: its own ensures states only the banner; what follows the banner is stated by `PageTextMeaning`.
- TranslationService.SelectPages: `sys.maxsize` and the clamping bounds are those of a 64-bit build; a 32-bit build clamps at 2**31 - 1.
- TranslationService.TranslatePages: its own ensures states only the page count; the page texts are stated by `FinishedPageByPage`, `RaisedAtFailingPage` and `FinishedBeforeFailingPage`.

## Findings

| source | as written | input that shows it | evidently intended | confidence | as-written member | corrected member |
|---|---|---|---|---|---|---|
| src/translation_service.py:164-172 | `pop()` takes the last part of the work list, and the halves are pushed left then right, so the right half is translated and appended first | a page "ab" that is too long as a whole, and whose characters translate to "a" and "b" | the halves of a split page come out in reading order, left then right | not executed | TranslationService.SwappedHalvesExample | TranslationService.LeftHalfFirst |
| src/translation_service.py:101-107 | `record_usage` is called with `requested_model=`, which its signature (src/token_tracker.py:133-134) lacks; the `TypeError` is caught at line 126 and re-raised as `API call failed with TypeError: ...` | any reply with content that also reports token usage | the usage is recorded and the content returned | not executed | TranslationService.UsageReportFailsTranslation | TranslationService.TranslateText |
