# dsl-core requirement pipeline, modelled in Dafny

dsl-core reads constrained requirement sentences of the form
`As <actor>, I must <action> [when <condition>] [then <result>].` and turns a
text of them into a validation report. This project models that pipeline and
proves what each stage guarantees:

- **Normaliser** (`Normalizer`, `NormalizerLayout`, `NormalizerWords`,
  `NormalizerArticles`). `normalizeInput` is a chain of six
  regular-expression `replace` calls followed by `trim`. The five global
  rewrites (white space, commas, articles, keyword case, condition words) are
  recursive scans that try a match at the current position, emit the
  replacement, and otherwise copy one character; a `\b` at the start of a
  scan is decided by an `afterWord` flag. The end-anchored period rewrite is
  not a scan: it strips trailing white space and re-attaches one period.
  Every function is total, so normalisation never fails.
- **Parser** (`Parser`, `ParserProps`). `parseRequirement` returns a
  `Result` whose failure is the error it would throw. The anchored canonical
  expression is modelled with its backtracking: `must` is tried before
  `must not`, the greedy `\s+` gives white space back to `(.+)$`, and `split`
  cuts at every `\s+when\s+` / `\s+then\s+`.
- **Errors** (`Errors`): the closed family of error classes, with their
  `name` and the message each constructor builds.
- **Rule engine** (`StructureRule`, `ActorRule`, `AtomicityRule`,
  `ModalityRule`, `RuleEngine`, `Validation`). Each check is a method that
  pushes onto a local list. It is proved equal to a specification function,
  and the properties are proved about that function.
- **Legacy validator** (`LegacyValidator`): the older string-message
  validator. It is a method with eight sequential pushes, proved equal to a
  function built from which checks fire.
- **Public API** (`StatementSplit`, `PublicApi`): `splitStatements` and
  `validateText`, with a thrown error captured as data on its statement.
- **Report** (`Report`): `buildReport`. The summary `reduce` is a loop method
  proved equal to a left fold.
- **Buffer concatenation** (`BufferConcat`): the `Buffer.concat` stand-in of
  the CLI, an in-place copy into a fresh array.
- **Validate command** (`ValidateCommand`): the per-file
  `OK / INVALID / PARSE_ERR` figures and the exit code.

Some properties one might expect of the normaliser do not hold, so the model
proves corrected forms:

- **Idempotence.** `"as a a x"` normalises to `"as a x"` and then to
  `"as x"`; `NormalizerArticles.NormalizeNotIdempotent` proves this.
- **No white space before a comma.** This fails because `",,"` becomes
  `", , "`; `NormalizerLayout.RepeatedCommas` shows it. What holds is that
  white space before a comma always follows another comma.
- **A space after every comma.** This fails because `"a,."` stays `"a,."`.
  What holds is that a comma is followed by a space, by the final period, or
  by nothing.

Some tests disagree with the code, and the model follows the code:

- The canonical expression rejects a statement without the comma or without
  `As`.
- The parser keeps the case of the action.
- `"actor"` is not a placeholder actor.

## Model

| member | source | states |
|---|---|---|
| Text.Lower | src/parser/normalizer.ts:17-22 | ASCII case folding of the `i` flag: the result is never an upper-case letter, anything else is unchanged, and word characters stay word characters |
| Text.LowerStr | src/parser/normalizer.ts:20 | `toLowerCase` on the keyword set: same length, every character folded |
| Text.SpaceRun | src/parser/normalizer.ts:14 | what a greedy `\s*` consumes: the run stays inside the text and the next character is not white space |
| Text.SpaceRunSpaces | src/parser/normalizer.ts:14 | every character of that run is white space |
| Text.CiAtSlice | src/parser/parser.ts:24 | a case-insensitive match of a lower-case word is the lower-cased slice equal to the word |
| Text.TrimStartSlices | src/parser/normalizer.ts:23 | the leading part `trim` removes is white space and what it keeps is a suffix |
| Text.TrimEndSlices | src/parser/normalizer.ts:23 | what `trim` keeps at the end is a prefix and what it removes is white space |
| Text.Trim | src/parser/normalizer.ts:23 | `trim`: no white space at either end, empty exactly when the text is all white space |
| Text.TrimAround | src/validation/ruleChecks/actor.ts:17 | trimming removes exactly the white space around a text that neither starts nor ends with white space |
| Text.TrimSpaceAfter | src/api/public_api.ts:52 | appended white space does not change the trimmed text |
| Normalizer.KeywordMatch | src/parser/normalizer.ts:19 | the alternation's match at a position is `""` or a keyword that occurs there up to case and ends a word |
| Normalizer.ConditionWordMatch | src/parser/normalizer.ts:22 | the case-sensitive `if`/`whenever` match consumes 0, 2 or 8 characters |
| NormalizerLayout.CollapseSpaced | src/parser/normalizer.ts:14 | after collapsing, every white space character is a plain space and never followed by another; the result is empty only for an empty input |
| NormalizerLayout.NormalizeCommasTidy | src/parser/normalizer.ts:15 | on collapsed text the comma rewrite leaves each comma followed by a space or at the end, and white space before a comma only after a comma |
| NormalizerLayout.TerminatePeriodTidy | src/parser/normalizer.ts:16 | after the period rewrite no white space stands before a final period, and the spacing and comma facts still hold |
| NormalizerLayout.PeriodAtOrFinal | src/parser/normalizer.ts:16 | a position that breaks the period fact is white space right before the period that ends the trimmed text, which the rewrite then removes |
| NormalizerLayout.ArticleMatchShape | src/parser/normalizer.ts:17 | a match of the article expression starts with a word character and ends in white space not preceded by a comma, with no white space after it |
| NormalizerLayout.StripArticlesTidy | src/parser/normalizer.ts:17 | dropping articles keeps every layout fact |
| NormalizerLayout.LowerKeywordsCase | src/parser/normalizer.ts:18-21 | the keyword pass keeps the length and changes only letter case |
| NormalizerLayout.UnifyTidy | src/parser/normalizer.ts:22 | rewriting `if`/`whenever` to `when` keeps every layout fact |
| NormalizerLayout.TrimTidy | src/parser/normalizer.ts:23 | `trim` keeps every layout fact |
| NormalizerLayout.NormalizeLayoutHolds | src/parser/normalizer.ts:12-24 | the normal form has no white space at either end and only single plain spaces inside, hence no line terminator; a comma is followed by a space, by the final period or by nothing; white space before a comma only right after another comma; no white space before a final period |
| NormalizerLayout.RepeatedCommas | src/parser/normalizer.ts:15 | two adjacent commas become `", , "`, so a space can stand before a comma |
| NormalizerArticles.ArticleDropped | src/parser/normalizer.ts:17 | a standalone `as` in any case, white space, `a`/`an`/`the` in any case and white space become `as ` |
| NormalizerArticles.ArticleMatchAt | src/parser/normalizer.ts:17 | the match length is exactly `as`, the first run of white space, the article and the second run |
| NormalizerArticles.CollapseFixed | src/parser/normalizer.ts:14 | collapsing leaves text whose white space is already single spaces unchanged |
| NormalizerArticles.CommasFixed | src/parser/normalizer.ts:15 | the comma rewrite leaves text without commas unchanged |
| NormalizerArticles.TerminateFixed | src/parser/normalizer.ts:16 | the period rewrite leaves text ending in neither a period nor white space unchanged |
| NormalizerArticles.LowerKeywordsFixed | src/parser/normalizer.ts:18-21 | the keyword pass leaves text without upper-case letters unchanged |
| NormalizerArticles.UnifyFixed | src/parser/normalizer.ts:22 | the condition-word pass leaves text without `i` and `w` unchanged |
| NormalizerArticles.StripOnce | src/parser/normalizer.ts:17 | `"as a a x"` loses one article per pass, becoming `"as a x"` |
| NormalizerArticles.StripTwice | src/parser/normalizer.ts:17 | `"as a x"` becomes `"as x"` |
| NormalizerArticles.NormalizePlain | src/parser/normalizer.ts:12-24 | on plain lower-case text every pass but the article pass is the identity |
| NormalizerArticles.NormalizeOnce | src/parser/normalizer.ts:12-24 | normalising `"as a a x"` gives `"as a x"` |
| NormalizerArticles.NormalizeTwice | src/parser/normalizer.ts:12-24 | normalising `"as a x"` gives `"as x"` |
| NormalizerArticles.NormalizeNotIdempotent | src/parser/normalizer.ts:17 | normalising twice differs from normalising once |
| NormalizerWords.KeywordShape | src/parser/normalizer.ts:19 | every keyword is lower case, starts and ends with a word character, and only `must not` holds a non-word character |
| NormalizerWords.ChosenKeywordCovers | src/parser/normalizer.ts:19 | when several keywords match at one position, the alternation's choice is at least as long as each |
| NormalizerWords.NoKeywordInsideMatch | src/parser/normalizer.ts:19 | no standalone keyword starts strictly inside a keyword match |
| NormalizerWords.LowerKeywordsLowers | src/parser/normalizer.ts:18-21 | every standalone keyword of the input, in any case, is lower case at the same position of the output |
| NormalizerWords.KeywordsLowerCased | src/parser/normalizer.ts:18-21 | every standalone keyword of the keyword pass's output is written in lower case |
| NormalizerWords.UnifyRemovesCondWords | src/parser/normalizer.ts:22 | when every standalone `if`/`whenever` is lower case, the rewrite leaves none in any case |
| NormalizerWords.UnifyKeepsWord | src/parser/normalizer.ts:22 | after a word character the rewrite copies the word, so a whole word read in its output was in its input |
| NormalizerWords.NoCondWordsTrim | src/parser/normalizer.ts:23 | `trim` creates no standalone `if`/`whenever` |
| NormalizerWords.NormalizeHasNoCondWords | src/parser/normalizer.ts:18-23 | the normal form holds no standalone `if` or `whenever` in any case |
| Parser.ActorRun | src/parser/parser.ts:24 | `[A-Za-z0-9_-]+` is greedy: the run holds only actor characters and the next character is not one |
| Parser.Tail | src/parser/parser.ts:24 | the `(.+)$` capture is a non-empty proper suffix |
| Parser.TailSpec | src/parser/parser.ts:24 | the capture takes the most white space that still lets `(.+)$` match, and there is none only when no amount lets it match |
| Parser.CanonicalPrefix | src/parser/parser.ts:24 | the prefix fixes an actor of actor characters between `As ` and the comma, before the modality |
| Parser.MatchCanonical | src/parser/parser.ts:24-25 | a match gives a non-empty actor of actor characters, a modality that folds to `must` or `must not`, and a non-empty rest |
| Parser.MatchModality | src/parser/parser.ts:24 | the alternatives `must` and `must not` are tried in order, each followed by the tail |
| Parser.FindSep | src/parser/parser.ts:50 | a separator found at or after the start lies inside the text |
| Parser.FindSepSpec | src/parser/parser.ts:50 | the separator found is the leftmost, and none is found only when there is none |
| Parser.Nonblank | src/parser/parser.ts:68-69 | a field is present exactly when its value is a non-empty string, and then unchanged |
| Parser.Parse | src/parser/parser.ts:11-22 | every successful parse has a non-empty lower-case actor of actor characters, a binding modality, a non-empty action starting with a non-space, and a condition and result only when non-empty |
| Parser.ParseStatement | src/parser/parser.ts:24-29 | a statement either parses to such an atom or fails with MissingActorError or MissingActionError |
| Parser.FromCapture | src/parser/parser.ts:31-72 | the captures yield such an atom or MissingActorError or MissingActionError |
| ParserProps.SplitRoundTrip | src/parser/parser.ts:50-57 | putting the separators back between the pieces of `split` rebuilds the text |
| ParserProps.SplitOfCut | src/parser/parser.ts:50-58 | cutting the text at its second separator keeps exactly the first two pieces of `split` |
| ParserProps.LaterWhenSegmentsIgnored | src/parser/parser.ts:50-53 | text from the second `when` separator on never reaches the atom |
| ParserProps.LaterThenSegmentsIgnored | src/parser/parser.ts:55-57 | without `when`, text from the second `then` separator on never reaches the atom |
| ParserProps.ActionBeforeFirstSeparator | src/parser/parser.ts:50-58 | the action is the trimmed text before the first `when` separator, else before the first `then` separator; a condition exists exactly when there is a `when` separator |
| ParserProps.ParseBlank | src/parser/parser.ts:12-14 | exactly the blank inputs fail with the empty-input NormalizationError |
| ParserProps.ParseNeedsPeriod | src/parser/parser.ts:16-20 | exactly the non-blank inputs whose normal form lacks a final period fail with the missing-period NormalizationError |
| ParserProps.ParseMissingActor | src/parser/parser.ts:24-29 | a statement fails with MissingActorError exactly when it does not match the canonical expression |
| ParserProps.ParseErrorKinds | src/parser/parser.ts:11-73 | the parser fails only with NormalizationError or MissingActorError: the modality checks and the missing-action check never fire |
| ParserProps.TrimmedStatementHasAction | src/parser/parser.ts:22-62 | a statement that does not end in white space never fails with MissingActionError |
| ParserProps.ActionOfRest | src/parser/parser.ts:50-62 | a rest that starts with a non-space character leaves a non-empty action, whichever separators it holds |
| ParserProps.CapturedRestEndsStatement | src/parser/parser.ts:24 | the `(.+)$` capture ends with the statement's last character |
| ParserProps.StatementHasNoLineTerminator | src/parser/parser.ts:22 | the statement matched holds no line terminator |
| ParserProps.MustAlternativeWins | src/parser/parser.ts:24 | on text without line terminators the modality captured is always `must`, and before `must not` the rest starts with `not` |
| ParserProps.ParseModalityIsMust | src/parser/parser.ts:24-32 | every successful parse has modality `must` |
| ParserProps.NotSurvivesClauses | src/parser/parser.ts:50-58 | a rest starting with `not` gives an action starting with that `not` |
| ParserProps.ParseMustNot | src/parser/parser.ts:24-32 | a `must not` sentence parses to modality `must` and an action starting with `not` |
| Errors.Name | src/errors/errors.ts:10 | every name is the class name, ending in `Error` |
| Errors.NameIdentifiesKind | src/errors/errors.ts:10 | two errors have the same name exactly when they are of the same kind |
| Errors.Message | src/errors/errors.ts:17-68 | every message is non-empty |
| Errors.MessageIdentifiesKind | src/errors/errors.ts:17-68 | errors with the same message are of the same kind |
| Errors.ModalityInMessage | src/errors/errors.ts:35-41 | a modality read back from a message rebuilds that message |
| Errors.InvalidModalityRoundTrip | src/errors/errors.ts:35-41 | the message embeds the modality verbatim between the quotes, and it reads back unchanged |
| Errors.NormalizationMessage | src/errors/errors.ts:55-59 | the message is the base text alone exactly when the details are missing or empty, and otherwise the base text, a space and the details, which read back |
| StructureRule.StructureErrors | src/validation/ruleChecks/structure.ts:12-43 | each required-field error is reported exactly when its field is missing or blank, once, in field order, all of error severity, at most three, none for a complete atom |
| StructureRule.CheckStructure | src/validation/ruleChecks/structure.ts:12-43 | the pushes build exactly those errors |
| ActorRule.ActorKey | src/validation/ruleChecks/actor.ts:17 | the trimmed lower-cased actor is empty exactly when the actor is missing or blank |
| ActorRule.ActorErrors | src/validation/ruleChecks/actor.ts:14-40 | a blank actor gives the single missing-actor error; a placeholder gives the single placeholder error; otherwise nothing |
| ActorRule.CheckActor | src/validation/ruleChecks/actor.ts:14-40 | the pushes with the early return build exactly those errors |
| ActorRule.ActorKeyIgnoresCaseAndSpace | src/validation/ruleChecks/actor.ts:17 | surrounding white space and ASCII case do not change the key |
| ActorRule.KeyDecides | src/validation/ruleChecks/actor.ts:12-37 | the key `tbd` is a placeholder and `system` is not |
| ActorRule.PaddedPlaceholderRejected | src/validation/ruleChecks/actor.ts:12-37 | `" TBD "` with any padding is rejected as a placeholder |
| ActorRule.ExplicitActorAccepted | src/validation/ruleChecks/actor.ts:12-40 | `system` with any padding passes |
| AtomicityRule.FindConjunction | src/validation/ruleChecks/atomicity.ts:15 | a match found by the search is a standalone `and` or `or` |
| AtomicityRule.FindConjunctionLeftmost | src/validation/ruleChecks/atomicity.ts:15 | the search returns the leftmost match and misses one only when there is none |
| AtomicityRule.AtomicityErrors | src/validation/ruleChecks/atomicity.ts:12-27 | at most one error, reported exactly when the action holds a standalone `and` or `or` |
| AtomicityRule.CheckAtomicity | src/validation/ruleChecks/atomicity.ts:12-27 | the conditional push builds exactly those errors |
| AtomicityRule.ConjoinedActionRejected | src/validation/ruleChecks/atomicity.ts:15-24 | an action `x and y` is rejected |
| AtomicityRule.ConjunctionIsLowerCaseWord | src/validation/ruleChecks/atomicity.ts:15 | a match starts with lower-case `a` or `o` after a non-word character, so `AND` and `handle` do not match |
| AtomicityRule.MissingActionNotReported | src/validation/ruleChecks/atomicity.ts:15 | a missing action, tested as `"undefined"`, is not reported |
| ModalityRule.ModalityErrors | src/validation/ruleChecks/modality.ts:14-27 | at most one error, reported exactly when the modality is not exactly `must` or `must not` |
| ModalityRule.CheckModality | src/validation/ruleChecks/modality.ts:14-27 | the conditional push builds exactly those errors |
| ModalityRule.NonBindingRejected | src/validation/ruleChecks/modality.ts:12-24 | `should`, `MUST` and ` must` are rejected |
| RuleEngine.ApplyRules | src/validation/ruleEngine.ts:20-27 | at most six findings |
| RuleEngine.ApplyRulesEmpty | src/validation/ruleEngine.ts:20-27 | no finding exactly when the atom passes every rule |
| RuleEngine.ApplyRulesGrouped | src/validation/ruleEngine.ts:21-26 | the findings come grouped by check in the order structure, actor, atomicity, modality |
| RuleEngine.BlankActorReportedTwice | src/validation/ruleEngine.ts:22-23 | a blank actor yields both AFO-STRUCTURE-001 and AFO-ACTOR-001 |
| RuleEngine.BlankModalityReportedTwice | src/validation/ruleEngine.ts:22-25 | a blank modality yields both AFO-STRUCTURE-002 and AFO-MODALITY-001 |
| RuleEngine.ParsedAtomFindings | src/validation/ruleEngine.ts:20-27 | an atom the parser produced gets only actor and atomicity findings |
| RuleEngine.ParsedAtomValid | src/validation/ruleEngine.ts:20-27 | such an atom passes exactly when its actor is no placeholder and its action holds no standalone `and`/`or` |
| Validation.ValidateRequirement | src/validation/validator.ts:24-31 | the errors are exactly the engine's findings, and `valid` holds exactly when there are none, that is when the atom passes every rule |
| LegacyValidator.ThenMatchesCountsOccurrences | src/validator/validator.ts:46 | the global `then` match counts every standalone `then`, since matches cannot overlap |
| LegacyValidator.CommaPiecesCountsCommas | src/validator/validator.ts:59 | `split(",")` gives more than one piece exactly when there is a comma |
| LegacyValidator.PushAllMembers | src/validator/validator.ts:22-85 | a message is pushed exactly when its check fires, at most eight in all |
| LegacyValidator.ValidateLegacy | src/validator/validator.ts:22-85 | the pushes build exactly the messages of the firing checks in check order, and `valid` holds exactly when there are none |
| LegacyValidator.LegacyStructureFindings | src/validator/validator.ts:28-38 | each required-field message is reported exactly when its field is missing or blank |
| LegacyValidator.LegacyAtomicityFindings | src/validator/validator.ts:45-62 | two or more standalone `then` in a present raw text, `" and "` in the result, a comma in the result |
| LegacyValidator.LegacySemanticFindings | src/validator/validator.ts:69-76 | `must not` with a result, and a condition without a modality |
| LegacyValidator.LegacyValid | src/validator/validator.ts:81-84 | no message exactly when no check fires, at most eight messages |
| StatementSplit.SplitStatements | src/api/public_api.ts:47-54 | every statement is non-empty and trimmed |
| StatementSplit.StatementsOfLine | src/api/public_api.ts:47-54 | a single line gives no statement when blank, else itself trimmed |
| StatementSplit.StatementsAppend | src/api/public_api.ts:51 | the statements of `a\nb` are those of `a` followed by those of `b` |
| StatementSplit.StatementsAppendCrLf | src/api/public_api.ts:51 | the statements of `a\r\nb` are those of `a` followed by those of `b` |
| StatementSplit.StatementsDropCR | src/api/public_api.ts:51-52 | a final carriage return adds no statement |
| StatementSplit.StatementsBlank | src/api/public_api.ts:47-54 | a text has no statement exactly when it is all white space |
| StatementSplit.PiecesAppend | src/api/public_api.ts:51 | cutting at line feeds distributes over a joining line feed |
| PublicApi.ValidateStatement | src/api/public_api.ts:63-70 | the result keeps the input, has an atom with its validation or an error but never both, and has no error exactly when the parse succeeds |
| PublicApi.StatementVerdict | src/api/public_api.ts:63-66 | a statement carries a validation exactly when it parses; its findings are the rule engine's, and it is valid exactly when its actor is no placeholder and its action holds no standalone `and`/`or` |
| PublicApi.StatementErrorNames | src/api/public_api.ts:67-69 | a captured error is always named NormalizationError or MissingActorError |
| PublicApi.ValidateText | src/api/public_api.ts:56-72 | the results are the statements' results in order; the fallback of line 60 never adds one |
| PublicApi.FallbackEmpty | src/api/public_api.ts:60 | when no line is a statement, the trimmed whole text is not one either |
| PublicApi.ValidateTextOutcomes | src/api/public_api.ts:56-72 | one result per statement, with the trimmed line as input and exactly one outcome |
| PublicApi.ValidateTextAppend | src/api/public_api.ts:62-71 | lines are validated independently: the results of `a\nb` are those of `a` then those of `b` |
| PublicApi.ValidateTextBlank | src/api/public_api.ts:57-60 | no result exactly when the text is all white space |
| Report.InferTargetKind | src/report/buildReport.ts:77-81 | `<stdin>` is stdin, a path ending in `.dsl` is a file, anything else a directory |
| Report.Count | src/report/buildReport.ts:84-88 | a filter count is at most the length and zero exactly when nothing matches |
| Report.CountsPartition | src/report/buildReport.ts:83-96 | when each result has a validation or an error and not both, valid + invalid + parse errors is the number of statements |
| Report.ReportFilesShape | src/report/buildReport.ts:113-135 | the files keep order, paths and counts; each statement keeps its position and data and names its file as source |
| Report.Summarize | src/report/buildReport.ts:137-147 | the reduce's accumulator loop computes the left fold of the per-file counts |
| Report.TotalFiles | src/report/buildReport.ts:139 | the summary counts the files |
| Report.TotalAppend | src/report/buildReport.ts:137-147 | the summary of two lists of files is the field-wise sum of theirs |
| Report.TotalPartition | src/report/buildReport.ts:137-147 | files whose counts partition their statements give a summary that does too |
| Report.SummaryPartition | src/report/buildReport.ts:83-147 | for well-formed results the summary counts every statement exactly once |
| Report.ContractOf | src/report/buildReport.ts:111-156 | fixed name and schema; the version defaults to `1.0.0` only when missing |
| Report.EngineOf | src/report/buildReport.ts:157-168 | `git` is present exactly when the SHA is a non-empty string, and `ref` inside it exactly when the ref is one too |
| Report.TargetOf | src/report/buildReport.ts:149-173 | an explicit kind wins, otherwise it is inferred from the path |
| Report.BuildReport | src/report/buildReport.ts:106-177 | the report holds the mapped files, their summary, the contract, the engine, the given time stamp and the target |
| BufferConcat.Flatten | src/cli.ts:30-39 | the concatenated bytes are as many as the total length |
| BufferConcat.FlattenAppend | src/cli.ts:31-37 | concatenation and total length distribute over joined chunk lists |
| BufferConcat.ChunkAt | src/cli.ts:33-37 | chunk i occupies the bytes from the total length of the chunks before it |
| BufferConcat.Set | src/cli.ts:35 | `result.set(c, offset)` writes the chunk at the offset and leaves the other bytes alone |
| BufferConcat.SumLengths | src/cli.ts:31 | the reduce computes the total length |
| BufferConcat.Concat | src/cli.ts:30-39 | a fresh array of the total length holding the chunks' bytes in order |
| ValidateCommand.SomeStatement | cli/src/commands/validate.ts:9-14 | true exactly when some statement of some file satisfies the test |
| ValidateCommand.ExitCode | cli/src/commands/validate.ts:9-31 | 2 exactly when some statement has an error; 1 exactly when none has and some is invalid; 0 exactly when none has an error or is invalid |
| ValidateCommand.FileLineCounts | cli/src/commands/validate.ts:20-24 | INVALID and PARSE_ERR equal the report's counts, and OK is the valid count when each result has exactly one outcome |
| ValidateCommand.TotalParseErrorsPositive | src/report/buildReport.ts:137-147 | the summary counts a parse error exactly when some file does |
| ValidateCommand.TotalInvalidPositive | src/report/buildReport.ts:137-147 | the summary counts an invalid statement exactly when some file does |
| ValidateCommand.ExitCodeFromSummary | cli/src/commands/validate.ts:31 | the exit code can be read off the report's summary: 2 on parse errors, else 1 on invalid statements, else 0 |

## Left out

- Unicode case mapping is ASCII only. `checkActor`'s `toLowerCase` folds only ASCII letters here, so a non-ASCII actor is not folded as JavaScript would fold it. The case-insensitive regular expressions are exact: every letter in their patterns is ASCII, and no non-ASCII character folds to an ASCII one under their case-insensitive matching.
- Regular expressions are modelled one at a time, not through a general engine.
- src/types/RequirementAtom.ts is not part of this model. The atom record is rebuilt from how the code uses it.
- I/O is left out: reading files and standard input, `validateFile`, `validatePath`, `generateReport`, `readStdin`, `main`, `console.log` and `Deno.exit`. The exit code is returned instead.
- The `--json` output of the validate command is left out.
- The clock is left out. `generatedAt` is a given string.
- The `source` parameter of `validateText` is left out because the code never uses it.
- The `Array.isArray` and `!!valid` coercions of the report are the identity on typed results. The free-form `extensions` field is not modelled.
- Report.ReportFilesShape: statements carry no `extensions` field.
- The parser's MissingModalityError, InvalidModalityError and MissingActionError branches (src/parser/parser.ts:38-62) are modelled but unreachable. The modality capture is never empty and always folds to `must` or `must not`, and the trimmed statement leaves a rest whose action is never empty.
- Normalizer idempotence is not stated because it is false.
- NormalizerWords.KeywordsLowerCased: stated for the output of the keyword pass. The condition-word pass and `trim` then only rewrite `if`/`whenever` and remove end white space.
- The two comma properties listed above among those that do not hold are false as stated; their corrected forms are in NormalizerLayout.NormalizeLayoutHolds.
- LegacyValidator.ValidateLegacy: messages are a datatype. `MessageText` gives their text.
- Concrete examples (`system`, `TBD`, `should`, `validate and log the access token`) are proved for whole families of inputs rather than evaluated.
