# relaycode-core in Dafny

This project models the core of relaycode-core, a library that turns an assistant's reply into
file operations and applies them to a snapshot of file contents. It has three parts:

- **Parsing a reply** (`src/parser.ts`).
  - The trailing metadata block is located: the last fenced yaml block, or failing that a bare
    `projectId:` block among the final twenty lines.
  - That block is cut out of the text.
  - Every fenced code block is classified as a write, a delete or a rename. This uses the header
    grammar (a quoted path with an optional strategy, or one or two tokens), the ordered
    strategy inference and the sentinel stripping of the code.
  - The text that is left, minus the matched blocks, becomes the trimmed, non-blank reasoning lines.
  - A reply without metadata or without an accepted block is rejected.
- **Applying operations** (`src/patch.ts`). Operations are replayed in order against a copy of a
  `path -> content | null` map:
  - delete sets `null`;
  - rename needs the source key;
  - a `replace` write overwrites;
  - the other strategies go through an external diff service;
  - the first failure makes the whole call fail.

  The added/removed line counts for one operation come from a single-row dynamic program for
  the longest common subsequence (LCS) of the line lists.
- **Types and configuration defaults** (`src/types.ts`). These cover the four patch strategies,
  the three operation variants, the metadata record, and the configuration schema's defaulting
  and numeric bounds.

Modules:
- `Wrappers`: `Option`.
- `JsStrings`: the ECMAScript string built-ins the code relies on. These are `trim` with its
  exact whitespace set, `split` (so `"".split('\n')` is `[""]`), splitting on `\s+`, `join`,
  `indexOf`/`lastIndexOf`, `substring` with clamping and swapping, `startsWith`, `includes`,
  first-occurrence `replace`, and the one-pass `\r\n` replacement.
- `Types`: `src/types.ts`.
- `LongestCommonSubsequence`: the recurrence, and the proof that it gives the length of a
  longest common subsequence.
- `Patch`: `src/patch.ts`.
- `Parser`: `src/parser.ts`.

The source's loops are written as methods with loops, each proved equal to a specification
function: `ApplyOperations`, `CalculateLcsLength`/`FillRow` over an `array<nat>`,
`FindMetadataStart`, `CollectBlocks` and `RemoveMatchedBlocks`. `ExtractAndParseYaml` and
`ParseLLMResponse` contain no loop in the model: their loops are the helper methods just named,
which they call, and they are likewise proved equal to their functions. The properties are lemmas about those
functions.

Code the model does not contain is passed in as values:
- **Diff services:** a `PatcherRegistry` from strategy to a function returning `DiffApplied`,
  `DiffFailed` or `DiffThrew`. A thrown exception becomes a value.
- **`Collaborators` fields:**
  - the two regular-expression scanners, as the sequence of matches they produce;
  - the YAML loader followed by the metadata schema;
  - the JSON decoder followed by the `{from, to}` schema for rename bodies;
  - the four sentinel strings of the `constants` module.

## Model

| member | source | states |
|---|---|---|
| Types.ParseStrategy | src/types.ts:56-61 | exactly the four names are accepted, and an accepted name is the name of the strategy returned |
| Types.ParseStrategyName | src/types.ts:56-61 | every strategy's name parses back to that strategy |
| Types.ParseStrategyOrDefault | src/types.ts:56-61 | a missing strategy defaults to `replace`; a present one is accepted exactly when it is one of the four names |
| Types.ParseConfig | src/types.ts:42-50 | a missing or empty `projectId` is rejected; an accepted configuration keeps the given `projectId` and satisfies every numeric bound of the schema |
| Types.ParseConfigDefaults | src/types.ts:3-50 | a configuration giving only a `projectId` gets every default: log level `info`, poll interval 2000, approval `auto`, branch prefix `relay/`, and so on |
| Types.ParseConfigCoreFields | src/types.ts:7-11 | in an accepted configuration, a missing `core` section is all defaults, and each missing field of a present one takes its default (`info`, `true`, `true`) while given fields are kept |
| Types.ParseConfigWatcherFields | src/types.ts:13-16 | the same for `watcher`: poll interval 2000 and strategy `auto` by default, given values kept |
| Types.ParseConfigPatchFields | src/types.ts:18-26 | the same for `patch`, field by field; a missing `maxFileChanges` stays missing |
| Types.ParseConfigGitFields | src/types.ts:28-32 | the same for `git`: `false`, `relay/` and `gitCommitMsg` by default |
| Types.ParseConfigAcceptedIff | src/types.ts:3-50 | a configuration is accepted exactly when the `projectId` is non-empty and every number given is an integer within its bound |
| Types.ParseConfigRoundTrip | src/types.ts:42-50 | a valid configuration, written out in full, parses back to itself (present values within bounds are kept) |
| Types.ParseConfigRejectsBadPollInterval | src/types.ts:14 | a poll interval that is fractional or not positive rejects the whole configuration |
| Types.ParseConfigRejectsBadMaxFileChanges | src/types.ts:25 | a `maxFileChanges` below 1 rejects the whole configuration |
| LongestCommonSubsequence.Lcs | src/patch.ts:80-104 | the LCS length is at most the length of either sequence |
| LongestCommonSubsequence.LcsSymmetric | src/patch.ts:80-104 | the LCS length does not depend on the order of the two sequences, which justifies the swap at the start |
| LongestCommonSubsequence.LcsIsLongest | src/patch.ts:80-104 | some common subsequence has exactly the LCS length, and none is longer |
| LongestCommonSubsequence.LcsOfSubsequence | src/patch.ts:80-104 | when one line list only has lines inserted into it to give the other, the LCS is the whole of the first |
| LongestCommonSubsequence.LcsOfAppended | src/patch.ts:80-104 | appending lines keeps the whole original as common subsequence |
| Patch.ApplyOperation | src/patch.ts:27-75 | a successful step's keys are the old keys plus the paths the operation names, and every other path keeps its value |
| Patch.ApplyAll | src/patch.ts:27-77 | a successful run's keys are the old keys plus every path the operations name, and every other path keeps its value |
| Patch.ApplyOperations | src/patch.ts:21-78 | the copying loop with early returns gives exactly the left fold of the per-operation step over the list |
| Patch.ApplyAllAppend | src/patch.ts:27-77 | running two lists in turn is running their concatenation; a failure in the first list is final |
| Patch.FailureComesFromOneOperation | src/patch.ts:27-77 | a failed call has some operation that fails after all earlier ones applied, and its error is the result |
| Patch.FailingOperationFailsAll | src/patch.ts:27-77 | conversely, a prefix that applies followed by a failing operation makes the whole list fail with that error, whatever follows |
| Patch.SuccessAppliesEveryPrefix | src/patch.ts:27-77 | a successful call means every prefix of the list applied in order too |
| Patch.DeleteAlwaysSucceeds | src/patch.ts:28-31 | delete always succeeds and sets the path to `null`, whether or not it was a key |
| Patch.RenameFailsIffSourceMissing | src/patch.ts:32-39 | rename fails exactly when `from` is not a key; otherwise `from` becomes `null` and `to` takes the old value of `from`, overwriting `to` |
| Patch.RenameAfterDelete | src/patch.ts:28-39 | renaming a path deleted earlier in the same list succeeds and moves `null` (the key check, not a null check) |
| Patch.ReplaceWriteOverwrites | src/patch.ts:42-74 | a `replace` write sets the path to its content verbatim, whatever was there |
| Patch.ReplaceWriteIdempotent | src/patch.ts:42-74 | repeating a `replace` write anywhere in a list has the effect of writing it once |
| Patch.WriteAfterDelete | src/patch.ts:28-74 | a replace write after a delete of the same path leaves just the written content |
| Patch.MultiSearchReplaceNeedsExistingFile | src/patch.ts:43-50 | `multi-search-replace` on a missing or `null` path fails with the new-file message, whatever the services are |
| Patch.DiffStrategyOnNewFile | src/patch.ts:52-72 | the other diff strategies run on a missing or `null` path with `""` as original content; success writes the content, a reported failure and a thrown error give their two messages |
| Patch.DiffStrategyOnExistingFile | src/patch.ts:52-72 | on a path with content, any strategy other than `replace` hands that content and the diff to its service; success writes the new content, a reported failure and a thrown error give their two messages |
| Patch.UnknownStrategyFails | src/patch.ts:58-61 | a strategy without a registered service fails with the unknown-strategy message |
| Patch.SourceRegistryKnowsEveryStrategy | src/patch.ts:4-15 | the table the source builds has a service for each of `new-unified`, `multi-search-replace` and `unified`, the strategies that reach it |
| Patch.LcsPrefixCell | src/patch.ts:93-99 | one table cell follows from its diagonal, upper and left neighbours as the inner loop computes it |
| Patch.FillRow | src/patch.ts:91-102 | one outer pass turns row `i - 1` of the table held in `dp` into row `i`, using `prev`/`temp` for the diagonal |
| Patch.CalculateLcsLength | src/patch.ts:80-104 | the single-row dynamic program returns the LCS length of the two line lists |
| Patch.CalculateLineChanges | src/patch.ts:106-136 | the removed count never exceeds the old line count, and the added count never exceeds the new line count |
| Patch.RenameChangesNoLines | src/patch.ts:111-113 | a rename reports (0, 0) |
| Patch.DeleteRemovesOldLines | src/patch.ts:114-119 | a delete reports (0, old line count), with 0 for old `null` or `""` |
| Patch.IdenticalContentNoChanges | src/patch.ts:121-123 | unchanged content reports (0, 0) |
| Patch.NewFileAllAdded | src/patch.ts:125-128 | an old `null` or `""` reports every new line as added |
| Patch.EmptiedFileAllRemoved | src/patch.ts:125-129 | a new `null` or `""` reports every old line as removed |
| Patch.EditedFileCountsAgainstLcs | src/patch.ts:131-135 | otherwise both counts are the line counts minus the LCS length, and added minus removed is the change in line count |
| Patch.InsertedLinesOnlyAdded | src/patch.ts:121-135 | when the new lines only insert into a non-empty old text, nothing is removed and the inserted lines are added |
| Patch.MiddleLineChangedExample | src/patch.ts:106-136 | changing the middle of three lines reports one added and one removed |
| Parser.MarkedRegion | src/parser.ts:25-32 | the text between the first start marker and the last end marker when both exist and the end comes later, swapped by `substring` when the two overlap, else the whole content |
| Parser.MarkedRegionAvoidsPair | src/parser.ts:29-32 | cutting out the marked region never creates two adjacent characters that the content did not have |
| Parser.TrimAvoidsPair | src/parser.ts:34 | trimming never creates an adjacent pair of characters |
| Parser.ExtractCodeBetweenMarkers | src/parser.ts:25-35 | the extracted code has no whitespace at either end, and contains no CR LF when the content has no CR CR |
| Parser.ExtractedCodeMayKeepCrLf | src/parser.ts:34 | the single-pass replacement turns CR CR LF into CR LF, so a CR LF can survive extraction |
| Parser.QuotedCloseFrom | src/parser.ts:38 | the first position from `from` where the closing quote lets the rest of the quoted pattern match, or -1 when none does |
| Parser.QuotedClose | src/parser.ts:38 | the quoted pattern matches exactly when some closing quote works; the returned one is the first, as the lazy group takes it |
| Parser.ParseQuotedHeader | src/parser.ts:38-49 | in the quoted branch, an accepted header's path is exactly the text between the opening and the closing quote |
| Parser.ParseUnquotedHeader | src/parser.ts:52-69 | in the unquoted branch, an accepted header has a non-empty path |
| Parser.ParseCodeBlockHeader | src/parser.ts:37-70 | an accepted header always has a non-empty path |
| Parser.QuotedPathFirstQuote | src/parser.ts:38 | no quote before the end of a quote-free path can close the quoted pattern |
| Parser.QuotedPathOnly | src/parser.ts:38-49 | a quoted path on its own gives that path and no strategy |
| Parser.QuotedHeaderWithWord | src/parser.ts:38-47 | once the pattern's closing quote is known and the trailing group is a non-empty trimmed word, whatever the path holds: the header is accepted with the text between the quotes as path exactly when the word names a strategy, which is then the header's strategy |
| Parser.QuotedPathWithStrategy | src/parser.ts:38-49 | a quoted path followed by any non-empty run of whitespace and a word gives that strategy when the word names one, and rejects the header otherwise |
| Parser.UnquotedSingleToken | src/parser.ts:52-55 | a single token that the quoted pattern does not match (including one that starts with an unclosed quote) is the path, with no strategy |
| Parser.UnquotedTwoTokens | src/parser.ts:56-63 | two tokens that the quoted pattern does not match give (first, strategy) when the second names a strategy, and otherwise the whole line is the path |
| Parser.UnquotedThreeOrMoreTokens | src/parser.ts:65-67 | three or more tokens that the quoted pattern does not match are rejected, whatever follows the third token's start |
| Parser.EmptyHeaderRejected | src/parser.ts:52-69 | an empty header is rejected |
| Parser.BlankToLineEndMeaning | src/parser.ts:74 | `\s*$` in multiline mode matches at a position exactly when a whitespace run from there reaches a line terminator or the end |
| Parser.InferPatchStrategy | src/parser.ts:72-77 | an explicit strategy wins; otherwise `multi-search-replace` exactly when a search line and the replace marker are present; otherwise `new-unified` exactly when the unified-diff conditions hold; otherwise `replace`; inference never yields `unified` |
| Parser.InferSearchReplaceExample | src/parser.ts:72-77 | a search/replace body wins over unified-diff markers in the same content |
| Parser.BlockHeader | src/parser.ts:128 | the header is trimmed; it is the comment-form header when that one is present and non-empty, and the space-form header (or empty) otherwise |
| Parser.ParseCodeBlock | src/parser.ts:126-160 | an accepted block keeps its full match, has non-empty paths and a non-empty header. A rename comes only from the rename header with a decoded body. Any other operation's path is the parsed header's path. The operation is a delete exactly when a non-rename header is accepted and the body is the delete marker |
| Parser.RenameBlockClassified | src/parser.ts:133-140 | a rename header yields a rename exactly when its body decodes to two non-empty names, and is never read as a path |
| Parser.WriteBlockClassified | src/parser.ts:142-159 | any other accepted header with a non-delete body yields a write of the extracted code with the inferred strategy; the written content is trimmed |
| Parser.DeleteBlockClassified | src/parser.ts:142-151 | any other accepted header whose body is the delete marker yields a delete of the parsed header's path, with the block's full match |
| Parser.RejectedHeaderDropsBlock | src/parser.ts:131-145 | an empty header, or one the grammar rejects, drops the block |
| Parser.Accepted | src/parser.ts:173-179 | never more accepted blocks than matches |
| Parser.AcceptedAppend | src/parser.ts:173-179 | classifying two runs of matches is classifying each, in order |
| Parser.AcceptedKeepsOrder | src/parser.ts:173-179 | an accepted match lands right after the blocks accepted before it |
| Parser.AcceptedEmpty | src/parser.ts:173-183 | no block is accepted exactly when every match is dropped |
| Parser.AcceptedWellFormed | src/parser.ts:173-179 | every collected operation has non-empty paths |
| Parser.RemoveBlocks | src/parser.ts:185-188 | removing blocks never lengthens the text |
| Parser.NonBlankLines | src/parser.ts:189 | every reasoning line is non-empty and trimmed |
| Parser.NonBlankLinesMembers | src/parser.ts:189 | a string is kept exactly when it is non-empty and the trim of some input line |
| Parser.ReasoningLines | src/parser.ts:189 | at most one reasoning line per line of the text, each non-empty and trimmed |
| Parser.ReasoningLinesMembers | src/parser.ts:189 | a string is a reasoning line exactly when it is non-empty and the trim of some line of the text; no reasoning line contains a newline |
| Parser.LastMatchBelow | src/parser.ts:102-107 | the last index in the window whose line passes the test, with no passing line after it; -1 exactly when no line in the window passes |
| Parser.BareMetadataStart | src/parser.ts:98-107 | the start is -1 or a line index |
| Parser.BareMetadataStartMeaning | src/parser.ts:101-107 | -1 exactly when none of the final twenty lines starts with `projectId:` after trimming; otherwise the last such line |
| Parser.MetadataStartUnique | src/parser.ts:101-107 | a window line that starts the metadata, with none after it, is the one found |
| Parser.FromFenced | src/parser.ts:84-94 | the fenced strategy succeeds exactly when the block's body loads; the control is that load, and the remaining text is trimmed |
| Parser.FromBare | src/parser.ts:98-120 | the bare strategy succeeds only when a metadata start was found; it yields a control and trimmed text |
| Parser.FencedAttempt | src/parser.ts:81-95 | the fenced attempt fails exactly when there is no fenced block or the last one does not load; otherwise its control is the last block's load |
| Parser.ExtractYaml | src/parser.ts:79-124 | without a control block the text is returned unchanged; with one, the remaining text is trimmed |
| Parser.FindMetadataStart | src/parser.ts:98-107 | the backward loop with `break` finds the bare metadata start |
| Parser.ExtractAndParseYaml | src/parser.ts:79-124 | the method returns the extraction the two strategies define |
| Parser.ExtractBareYaml | src/parser.ts:98-120 | the second half loads the lines from the bare start and keeps the lines before it |
| Parser.FencedMetadataCutOut | src/parser.ts:83-90 | when the last fenced block loads, it is the control, and exactly that match is cut out of the text before trimming |
| Parser.FencedCutOut | src/parser.ts:86-90 | the fenced strategy on its own keeps the text before and after the match |
| Parser.OnlyLastFencedBlockTried | src/parser.ts:83-98 | when the last fenced block does not load, the bare strategy decides, whatever the earlier fenced blocks hold |
| Parser.BareMetadataFound | src/parser.ts:91-116 | when the fenced strategy yields nothing (no fenced yaml block, or the last one does not load), the control is loaded from the last window line starting with `projectId:` to the end, and the text is the lines strictly before it, joined and trimmed |
| Parser.BareMetadataOutsideWindow | src/parser.ts:91-123 | when the fenced strategy yields nothing and there is no `projectId:` line among the final twenty, there is no control and the text is unchanged |
| Parser.ControlComesFromAStrategy | src/parser.ts:79-124 | a control block is the last fenced block's or the one loaded from the bare start |
| Parser.ParseResponse | src/parser.ts:162-197 | a parsed reply has the extracted control, at least one operation, non-empty paths and trimmed non-empty reasoning lines |
| Parser.ParseResponseAbsentIff | src/parser.ts:162-183 | the result is absent exactly when there is no control or every code block in the remaining text is dropped |
| Parser.CollectBlocks | src/parser.ts:169-179 | the matching loop collects the operations and full matches of the accepted blocks, in match order |
| Parser.RemoveMatchedBlocks | src/parser.ts:185-188 | the loop removes the first occurrence of each matched block in turn |
| Parser.ParseLLMResponse | src/parser.ts:162-197 | the method returns what the reply's definition says, including absence |

## Left out

- The `diff-apply` services imported at `src/patch.ts:2` are foreign code. Each is a parameter
  that returns an outcome value. The table built from them at `src/patch.ts:4-15` is modelled by
  `SourceRegistry`. `async`/`await` and `try`/`catch`
  become that value's third case.
- The copy at `src/patch.ts:25` is `var fileStates := originalFiles;` in `ApplyOperations`.
  Maps are values here, so that copy already keeps the caller's map untouched, and no aliasing
  is modelled.
- The regular-expression engines of `CODE_BLOCK_REGEX` and of the fenced-yaml pattern are not
  modelled: lazy quantifiers, `\w`, the `i` flag and the global `lastIndex` state. The scanners
  are given as the sequences of matches they produce.
- `js-yaml` loading with `ControlYamlSchema.parse` (including the UUID format check), and
  `JSON.parse` with the rename schema, are given as partial functions.
- The final `ParsedLLMResponseSchema.parse` (`src/parser.ts:191-196`) is not modelled. The
  values built here already have the shape it checks.
- The values of the four sentinel strings are not modelled: `src/constants.ts` is not part of
  this model, so they are a parameter.
- Schema type errors on untyped JSON are out; for example, a string where a boolean is expected
  is not modelled. The configuration input is typed. Numbers are reals, so that `.int()`,
  `.positive()` and `.min()` can be stated.
- Strings are sequences of Unicode characters rather than UTF-16 code units. Surrogate pairs
  and the code-unit behaviour of `length`, `substring` and `trim` are not distinguished.
- `CalculateLineChanges` is stated over the `Lcs` function. `CalculateLcsLength` is proved
  equal to that function, and functions cannot call methods.
- Some loops are split out as helper methods. `FillRow` is the inner loop of
  `calculateLcsLength`, and `FindMetadataStart` is the backward scan of `extractAndParseYaml`.
  `CollectBlocks` and `RemoveMatchedBlocks` are the two loops of `parseLLMResponse`.
  `ExtractFencedYaml`, `LoadFencedBlock` and `ExtractBareYaml` contain no loop: they are the two
  halves of `extractAndParseYaml`, split out only to keep each proof small. The order of the
  steps is that of the source.
- ExtractCodeBetweenMarkers: its no-CR-LF guarantee assumes the content has no two carriage returns in a row. Without that
  assumption the output can contain CR LF, as `ExtractedCodeMayKeepCrLf` shows, so the plain
  claim that extracted code has no CR LF does not hold of the source.
- ParseCodeBlockHeader: its own contract only says the path is non-empty. The header grammar is
  stated case by case by the quoted and unquoted lemmas. `QuotedHeaderWithWord` covers a quoted
  header with a strategy word for any closing quote the pattern finds. `QuotedPathOnly` and
  `QuotedPathWithStrategy` spell out the closing quote only for paths without a quote character.
- CalculateLineChanges: its own contract gives only the bounds. The exact counts for each case
  are the lemmas below it.
- BareMetadataStart: its own contract gives only the range; its meaning is
  `BareMetadataStartMeaning`.
