# Syslog Analysis Tool: classification and rule pipeline in Dafny

This project models the core of the Syslog Analysis Tool, a browser application
that classifies syslog lines from OPNsense firewalls, Linux hosts and UniFi
devices, lets user rules override the classification, and asks a local Ollama
language model to explain critical and warning entries. The model covers:

- **the classifier** (`LogParser`). It reads a line's origin (`parseLogSource`),
  its timestamp (`parseTimestamp`) and its severity (`detectSeverity`). It also
  splits pasted text into entries (`parseRawLogs`) and runs the rule engine
  (`matchRules`, `parseAndMatchLogs`).
- **the Ollama service** (`OllamaService`). It turns a model reply, or a failed
  request, into an updated entry, which is the part of `analyzeLogWithOllama`
  after the HTTP call. It also holds the batch scheduler `batchAnalyzeLogs`.
- **the real-time ingestion state machine** of the application component
  (`App.Pipeline`). Its fields are the store of received entries, the buffer of
  lines received while paused, the pause and listener switches, the rule
  snapshot and the batch results. It has one method per handler.
- **the rule-list operations** of the rule manager (`RuleManager`): load the
  seven presets, add, update, delete and toggle by id.

The supporting modules are:

- `Text`: the JavaScript string operations the pipeline relies on. These are
  the `\d`, `\w`, `\s` and `.` classes, ASCII lower-casing, `includes`, `trim`
  and one-character `split`/`join`.
- `LogAnalyzer`: the entry record and its labels.
- `Wrappers`: `Option`.

Each fixed regular expression is given twice. One form is a declarative
predicate saying where the expression matches, for example `SyslogDateMatch`,
`BracketsAt`, `LabelAt` or `AnalysisMatch`. The other is the scan that finds the
leftmost match. The scan's contract ties the two together, including the
backtracking of `\s*` before a lazy `(.+?)`. User rule patterns run on an
uninterpreted `RegexEngine`, given as a pair of functions: whether
`new RegExp(p, 'i')` compiles, and what `test` answers.

Some inputs are parameters:

- `now`: the current time, used as the fallback timestamp.
- `freshId` and `presetId`: the generated identifiers.
- `Transport`: the outcome of each enrichment request. The batch requests are
  numbered in the order they are made.
- `Outcome`: for a real-time completion, the outcome is an argument of
  `Pipeline.CompleteEnrichment`.

Completions may be applied in any order, or never.

Three points where the code decides details:

- `\[.*\]` does not match across a line terminator. Lines are split on `\n`
  only, so a `\r` between the brackets defeats the match.
- The syslog date expression is unique once its start is fixed, because every
  run in it is followed by a character its class excludes.
- The entry's category can hold `custom`, which a rule carries. Severity and
  category can hold any word, because the reply's words are copied unchecked.

## Model

| member | source | states |
|---|---|---|
| LogAnalyzer.SeverityOf | src/app/utils/ollamaService.ts:51 | the severity label a stored word denotes names that word back, and only words outside the four names are held as a bare word |
| LogAnalyzer.SeverityOfName | src/app/components/LogAnalyzer.tsx:10 | reading a label's name back gives the label (round trip with `SeverityName`) |
| LogAnalyzer.NeedsAnalysisByName | src/app/utils/ollamaService.ts:79 | with no analysis, an entry is sent exactly when its severity reads `critical` or `warning`, as a label or as a bare word |
| LogAnalyzer.CategoryOf | src/app/utils/ollamaService.ts:50 | the category label a stored word denotes names that word back; `custom` and arbitrary words are admitted |
| LogAnalyzer.CategoryOfName | src/app/components/LogAnalyzer.tsx:13 | reading a category's name back gives the category |
| Text.Lower | src/app/utils/logParser.ts:43 | lower-casing keeps the length and maps every character through ASCII lower-casing |
| Text.LowerIdempotent | src/app/utils/logParser.ts:43 | lower-casing twice is lower-casing once |
| Text.Includes | src/app/utils/logParser.ts:6 | `includes` answers true exactly when the text occurs at some position |
| Text.Trim | src/app/utils/logParser.ts:64 | the trim is an infix with only white space on each side, starts and ends with non-space, and is empty exactly when the line is all white space |
| Text.TrimIdempotent | src/app/utils/logParser.ts:75 | trimming a trimmed line changes nothing |
| Text.TrimInfix | src/app/utils/logParser.ts:75 | a character missing from a line is missing from its trim |
| Text.Split | src/app/utils/logParser.ts:64 | `split` gives at least one piece and no piece holds the separator |
| Text.JoinSplit | src/app/utils/logParser.ts:64 | joining the pieces of a split gives the text back |
| Text.SplitJoin | src/app/utils/logParser.ts:64 | splitting pieces joined by the separator gives the pieces back |
| Text.SplitConcat | src/app/utils/logParser.ts:64 | splitting distributes over a separator |
| LogParser.HasApToken | src/app/utils/logParser.ts:11 | the scan for `U[A-Z0-9]{2,}`/i succeeds exactly when a `u`/`U` is followed by two ASCII letters or digits |
| LogParser.SyslogDateEnd | src/app/utils/logParser.ts:16 | the syslog date expression anchored at a position ends where the scan says, and nowhere else |
| LogParser.GreedyEndMatches | src/app/utils/logParser.ts:16 | the greedy split is a match, and every match of the syslog date expression from that start has it |
| LogParser.GreedySplitSound | src/app/utils/logParser.ts:32 | when its runs have the sizes the expression asks for, the greedy split is a syslog date match |
| LogParser.GreedySplitComplete | src/app/utils/logParser.ts:32 | every syslog date match from a start ends where the greedy split does |
| LogParser.SplitIsGreedy | src/app/utils/logParser.ts:32 | any split of a syslog date into its runs is the greedy one |
| LogParser.OpensAtIff | src/app/utils/logParser.ts:19 | a `[` starts a `\[.*\]` match exactly when the first `]` or line terminator after it is a `]` |
| LogParser.HasBrackets | src/app/utils/logParser.ts:19 | the scan for `\[.*\]` succeeds exactly when some `[` is closed by a `]` with no line terminator between |
| LogParser.ParseLogSource | src/app/utils/logParser.ts:4-24 | origin is OPNsense iff an OPNsense mark occurs; UniFi iff no OPNsense mark and a UniFi mark; Linux iff neither and a syslog date at the start, `kernel:`, `systemd` or brackets; unknown otherwise |
| LogParser.LeftmostIso | src/app/utils/logParser.ts:28 | finds the leftmost ISO date-time, and finds one exactly when one occurs |
| LogParser.LeftmostSyslog | src/app/utils/logParser.ts:32 | finds the leftmost syslog date and its end, and finds one exactly when one occurs |
| LogParser.SyslogFromMatches | src/app/utils/logParser.ts:32 | the position scan is the leftmost match of the syslog date expression |
| LogParser.TimestampSpan | src/app/utils/logParser.ts:28-37 | a span is found iff some timestamp expression matches; ISO beats the syslog date, which beats a leading clock |
| LogParser.ParseTimestamp | src/app/utils/logParser.ts:26-40 | the result is copied from the line at the chosen span when any expression matches, and is `now` otherwise |
| LogParser.Mentions | src/app/utils/logParser.ts:46 | the search for the whole-word alternation `\b(...)\b` succeeds exactly when one of the words occurs as a whole word |
| LogParser.DetectSeverity | src/app/utils/logParser.ts:42-61 | critical iff a critical word occurs as a whole word of the lower-cased line; warning iff not and a warning word does; info iff neither and an info word does; normal otherwise |
| LogParser.DetectSeverityLower | src/app/utils/logParser.ts:43 | the severity does not depend on letter case |
| LogParser.NonBlank | src/app/utils/logParser.ts:64 | keeps exactly the lines whose trim is not empty |
| LogParser.NonBlankConcat | src/app/utils/logParser.ts:64 | filtering keeps the order of the lines |
| LogParser.EntriesOf | src/app/utils/logParser.ts:66-77 | one entry per line, the `i`-th from the `i`-th line |
| LogParser.ParseRawLogs | src/app/utils/logParser.ts:63-78 | the entries of pasted text, one per classified line in order; specified by `ParseRawLogsAt`, `ParseRawLogsFresh`, `ParseRawLogsConcat` and `RawLinesJoin` |
| LogParser.ParseRawLogsAt | src/app/utils/logParser.ts:63-78 | the `i`-th entry has the trimmed line as message and origin, severity and timestamp of the untrimmed line |
| LogParser.EntryOfFresh | src/app/utils/logParser.ts:71-76 | an entry made from a non-blank line has no id, analysis or category, and a trimmed non-empty message without newline |
| LogParser.ParseRawLogsFresh | src/app/utils/logParser.ts:63-78 | every entry of pasted text is such a fresh entry |
| LogParser.RawLinesConcat | src/app/utils/logParser.ts:64 | text joined by a newline has the lines of the first part, then those of the second |
| LogParser.ParseRawLogsConcat | src/app/utils/logParser.ts:63-78 | text joined by a newline has the entries of the first part, then those of the second |
| LogParser.RawLinesLine | src/app/utils/logParser.ts:64 | a single line is classified as it is unless blank |
| LogParser.RawLinesJoin | src/app/utils/logParser.ts:64 | lines joined by newlines give exactly the non-blank ones, in order |
| LogParser.EntriesConcat | src/app/utils/logParser.ts:66 | the entries of concatenated lines are the concatenated entries |
| LogParser.RuleTest | src/app/utils/logParser.ts:85-95 | a regex rule whose pattern does not compile yields no answer; a regex rule answers the engine's test; a plain rule matches iff its lower-cased pattern occurs in the lower-cased message |
| LogParser.FirstFiring | src/app/utils/logParser.ts:82-97 | finds the first enabled rule that matches, and none exactly when no rule fires |
| LogParser.ApplyRules | src/app/utils/logParser.ts:80-108 | the entry is unchanged when no rule fires, else it carries the first firing rule's category, severity and `Matched rule: name - description` analysis |
| LogParser.EnabledRules | src/app/utils/logParser.ts:82 | keeps only enabled rules of the list, and keeps every enabled rule |
| LogParser.EnabledRulesConcat | src/app/utils/logParser.ts:82 | the filter distributes over concatenation, so the enabled rules keep their order |
| LogParser.EnabledRulesOne | src/app/utils/logParser.ts:82 | a single rule is kept exactly when it is enabled |
| LogParser.ApplyEnabledRules | src/app/utils/logParser.ts:82 | applying the enabled rules only is the same as applying all rules |
| LogParser.ApplyRulesAt | src/app/utils/logParser.ts:97-104 | from a position on, the rule there decides if it fires, else the rules after it |
| LogParser.MatchRules | src/app/utils/logParser.ts:80-108 | the loop with its `continue` on a bad pattern and early return gives `ApplyRules` |
| LogParser.ApplyRulesOnlyLabels | src/app/utils/logParser.ts:98-103 | a match changes only category, severity and analysis |
| LogParser.ApplyRulesConcat | src/app/utils/logParser.ts:82 | rules are tried in list order: later rules count only when no earlier one fires |
| LogParser.SkipNonFiring | src/app/utils/logParser.ts:97 | a rule that does not fire can be removed from anywhere |
| LogParser.DisabledIgnored | src/app/utils/logParser.ts:82 | a disabled rule is ignored wherever it stands |
| LogParser.BadRegexSkipped | src/app/utils/logParser.ts:92-95 | a regex rule that does not compile is passed over, so a later match still applies |
| LogParser.ApplyRulesIdempotent | src/app/utils/logParser.ts:80-108 | matching a matched entry again gives the same entry |
| LogParser.MatchAll | src/app/utils/logParser.ts:112 | element `i` of the result is element `i` after the rules, and the length is kept |
| LogParser.MatchAllConcat | src/app/utils/logParser.ts:112 | matching distributes over concatenation |
| LogParser.MatchAllNoFiring | src/app/utils/logParser.ts:107 | with no rule firing, entries come through unchanged |
| LogParser.ParseAndMatchLogs | src/app/utils/logParser.ts:110-113 | the parsed entries with the rules applied to each; specified by `ParseAndMatchLogsAt` and `ParseAndMatchConcat` |
| LogParser.ParseAndMatchLogsAt | src/app/utils/logParser.ts:110-113 | one matched entry per parsed entry, each the parsed entry after the rules |
| LogParser.ParseAndMatchConcat | src/app/utils/logParser.ts:110-113 | text joined by a newline gives the matched entries of each part in order |
| OllamaService.Prompt | src/app/utils/ollamaService.ts:13-24 | the prompt is the fixed head, then the entry's message, then the fixed tail, and nothing else |
| OllamaService.WordStart | src/app/utils/ollamaService.ts:46 | the capture after `\s*` starts at the one position where white space ends in a word character |
| OllamaService.WordFollowsIff | src/app/utils/ollamaService.ts:46-47 | the position test holds iff white space then a word character follows |
| OllamaService.LabelTestIff | src/app/utils/ollamaService.ts:46-47 | the label test passes exactly where `tag\s*\w` matches |
| OllamaService.LabelFrom | src/app/utils/ollamaService.ts:46-47 | finds the first position passing the label test |
| OllamaService.FirstLabel | src/app/utils/ollamaService.ts:46-47 | finds the leftmost match of `tag\s*\w` case-insensitively, and none iff none occurs |
| OllamaService.LongestRun | src/app/utils/ollamaService.ts:46-47 | the greedy run is the longest run of its class from its start |
| OllamaService.ExtractCategory | src/app/utils/ollamaService.ts:46 | the capture of `/Category:\s*(\w+[-\w]*)/i`: absent iff no label matches, else the longest word-and-hyphen run after the leftmost label, starting with a word character |
| OllamaService.ExtractSeverity | src/app/utils/ollamaService.ts:47 | the capture of `/Severity:\s*(\w+)/i`: absent iff no label matches, else the longest word run after the leftmost label |
| OllamaService.LazyEnd | src/app/utils/ollamaService.ts:48 | the lazy capture `(.+?)` followed by a newline or the end, from a position, ends exactly where the scan says |
| OllamaService.Backtrack | src/app/utils/ollamaService.ts:48 | the longest `\s*` after which the lazy capture succeeds, or none |
| OllamaService.AnalysisAt | src/app/utils/ollamaService.ts:48 | the analysis expression matches at a position with the longest white space that lets it, or not at all |
| OllamaService.AnalysisFrom | src/app/utils/ollamaService.ts:48 | finds the first position at which the analysis expression matches |
| OllamaService.ExtractAnalysis | src/app/utils/ollamaService.ts:48 | the capture of the `Analysis:` expression: absent iff the expression matches nowhere, else the capture at the leftmost match with the backtracking rule |
| OllamaService.ReplyAnalysis | src/app/utils/ollamaService.ts:52-58 | the trimmed capture when not empty, else the first 200 characters of the reply; empty iff the reply is empty |
| OllamaService.AnalyzeLog | src/app/utils/ollamaService.ts:38-66 | id, timestamp, source and message are kept; a reply sets lower-cased category and severity with fallbacks and the analysis; a non-OK response or thrown error sets only an `Error: ` analysis |
| OllamaService.ErrorOnlyAnalysis | src/app/utils/ollamaService.ts:60-66 | after an error only the analysis changes, and it starts with `Error: ` |
| OllamaService.AnalyzedHasAnalysis | src/app/utils/ollamaService.ts:54-59 | an enriched entry has a (truthy) analysis unless the reply was empty |
| OllamaService.EligibleFrom | src/app/utils/ollamaService.ts:78-79 | positions listed are increasing and all of entries that want an analysis |
| OllamaService.EligibleComplete | src/app/utils/ollamaService.ts:78-79 | every entry that wants an analysis is listed |
| OllamaService.Selected | src/app/utils/ollamaService.ts:78-80 | at most twenty positions, increasing, each of an entry without analysis that is critical or warning |
| OllamaService.SelectedFirst | src/app/utils/ollamaService.ts:78-80 | the selection is the first eligible entries: none is passed over before a selected one, and with fewer than twenty all are selected |
| OllamaService.SkippedFrom | src/app/utils/ollamaService.ts:82-84 | skipped positions are increasing and none is selected |
| OllamaService.SkippedComplete | src/app/utils/ollamaService.ts:82-84 | every unselected position is skipped |
| OllamaService.Pick | src/app/utils/ollamaService.ts:78-84 | the entries at the given positions, in order |
| OllamaService.EnrichEach | src/app/utils/ollamaService.ts:86-93 | the loop enriches entry `k` with request `k` and reports progress `(k+1, n)` after it |
| OllamaService.BatchAnalyze | src/app/utils/ollamaService.ts:69-96 | the result is the selected entries enriched in order, then the skipped ones unchanged; progress is reported once per selected entry as `(1,n) ... (n,n)` |
| OllamaService.SelectedSkippedPartition | src/app/utils/ollamaService.ts:82-84 | every entry is selected or skipped, never both, so the two counts add up to the input's |
| OllamaService.BatchLength | src/app/utils/ollamaService.ts:95 | a batch returns as many entries as it was given |
| OllamaService.BatchBlocks | src/app/utils/ollamaService.ts:86-95 | element `k` of the first block is the enrichment of the `k`-th selected entry, and the second block holds the skipped entries unmodified, both in input order |
| OllamaService.AllEligibleBatch | src/app/utils/ollamaService.ts:78-95 | with every entry eligible, the first twenty are enriched and the rest follow unchanged |
| OllamaService.IncreasingCard | src/app/utils/ollamaService.ts:82-84 | an increasing list of positions has no repeats |
| App.WithIds | src/app/App.tsx:104-107 | each entry gets its own generated id and is otherwise unchanged |
| App.DispatchesSound | src/app/App.tsx:113-118 | every request is for a listed entry that is critical or warning without analysis, under its id |
| App.DispatchesComplete | src/app/App.tsx:113-118 | every listed entry with an id that wants an analysis gets a request |
| App.MergeById | src/app/App.tsx:125-129 | entries with the completed id are replaced by the merged entry, all others kept, length kept |
| App.ReplaceById | src/app/App.tsx:126-128 | the `map` loop computes the merge by id |
| App.Completed | src/app/App.tsx:127 | the merged entry keeps the id it was sent with |
| App.DrainStep | src/app/App.tsx:155-158 | draining one more line appends that line's entries |
| App.DrainLines | src/app/App.tsx:155-158 | the loop appends the entries of each buffered line, oldest first |
| App.DispatchAll | src/app/App.tsx:113-118 | the loop starts one request per new entry that wants an analysis, in order |
| App.IngestLine | src/app/App.tsx:100-118 | the line's entries after the rules get their ids, and the requests are those for the entries that want an analysis |
| App.IdentifyAndDispatch | src/app/App.tsx:104-118 | the entries get their ids and the requests are those for the entries that want an analysis |
| App.AppendFreshUnique | src/app/App.tsx:104-110 | appending entries under fresh ids keeps the store's ids unique |
| App.AppendAnonymousUnique | src/app/App.tsx:157 | appending entries without ids keeps the store's ids unique |
| App.ParsedAnonymous | src/app/App.tsx:156 | parsed and matched entries carry no id |
| App.DrainAnonymous | src/app/App.tsx:153-161 | drained entries carry no id, so none is ever sent for analysis |
| App.NoDispatchWithoutIds | src/app/App.tsx:113-118 | entries without ids start no request |
| App.MergeAbsent | src/app/App.tsx:125-129 | a completion whose id is not in the store, as after a clear, leaves it as it is |
| App.CompletionsCommute | src/app/App.tsx:125-129 | completions for different ids give the same store in either order |
| App.CompletionKeepsIds | src/app/App.tsx:125-129 | a completion keeps the length and ids of the store, so unique ids stay unique |
| App.Pipeline.constructor | src/app/App.tsx:25-37 | the store, buffer, results and rules start empty and both switches off |
| App.Pipeline.SetRules | src/app/App.tsx:301 | the rule snapshot becomes the rule manager's list |
| App.Pipeline.Receive | src/app/App.tsx:94-151 | while paused the line is appended to the buffer and the store is unchanged; otherwise the line's entries with new ids are appended after the store and the requests for those that want an analysis are started |
| App.Pipeline.Ingest | src/app/App.tsx:100-118 | the unpaused path: store is the old store plus the new entries with ids, and the requests are theirs |
| App.Pipeline.CompleteEnrichment | src/app/App.tsx:121-129 | the store becomes the merge by id of the enriched entry |
| App.Pipeline.ProcessBuffered | src/app/App.tsx:153-162 | the store gains the entries of the buffered lines in FIFO order, and the buffer is emptied |
| App.Pipeline.TogglePause | src/app/App.tsx:164-173 | the pause flips, and the buffer is drained exactly when the stream resumes |
| App.Pipeline.ToggleListener | src/app/App.tsx:81-92 | the listener flips; stopping drains the buffer; the pause is untouched |
| App.Pipeline.Clear | src/app/App.tsx:175-179 | store and buffer are emptied |
| App.Pipeline.SubmitLogs | src/app/App.tsx:39-74 | the results become the batch result of the parsed and matched text, with one progress report per selected entry |
| RuleManager.LoadPresets | src/app/components/RuleManager.tsx:117-124 | all seven presets are appended after the existing rules, in declaration order, each enabled, preset and a regex, with its own id |
| RuleManager.AddRule | src/app/components/RuleManager.tsx:126-135 | exactly one rule with the form's fields is appended, enabled |
| RuleManager.UpdateRule | src/app/components/RuleManager.tsx:150-162 | rules with the edited id take the form's fields and keep id, enabled and preset; others are untouched; nothing changes when nothing is being edited |
| RuleManager.ToggleRule | src/app/components/RuleManager.tsx:168-174 | `enabled` flips on the rules with the id; nothing else changes, not even the length |
| RuleManager.ToggleTwice | src/app/components/RuleManager.tsx:168-174 | toggling twice restores the list |
| RuleManager.DeleteRule | src/app/components/RuleManager.tsx:164-166 | the rules with other ids, in order; specified by `DeleteRuleRemoves`, `DeleteRuleKeeps`, `DeleteRuleSubset` and `DeleteConcat` |
| RuleManager.DeleteRuleRemoves | src/app/components/RuleManager.tsx:164-166 | no rule with the deleted id remains |
| RuleManager.DeleteRuleKeeps | src/app/components/RuleManager.tsx:164-166 | every rule with another id remains |
| RuleManager.DeleteRuleSubset | src/app/components/RuleManager.tsx:164-166 | nothing is added by a delete |
| RuleManager.DeleteConcat | src/app/components/RuleManager.tsx:165 | delete works rule by rule, so the kept rules keep their order |
| RuleManager.DeleteOne | src/app/components/RuleManager.tsx:165 | a single rule is kept iff its id differs |
| RuleManager.DeleteAbsent | src/app/components/RuleManager.tsx:165 | deleting an id no rule carries keeps the list |

## Left out

- The HTTP request and JSON decoding of `analyzeLogWithOllama`, with the endpoint and model configuration. Their result is an `Outcome`, supplied by the caller. A reply without a `response` string throws inside the service; that is the `Threw` outcome.
- The regular-expression engine for user rule patterns, which can hold lookahead. Whether a pattern compiles and what it matches are the two functions of `RegexEngine`.
- `Date.now()`, `Math.random()` and `new Date().toISOString()`. The clock is one `now` value per call, where the program reads it per line. Identifiers are `freshId` and `presetId` parameters. The ids the program draws are not known to be unique, so `AppendFreshUnique` assumes freshness in its statement.
- Text is modelled as sequences of code points, while JavaScript strings are UTF-16. `substring(0, 200)` counts code units, so `Prefix` differs on text outside the Basic Multilingual Plane.
- `toLowerCase` is modelled on ASCII letters only. Its non-ASCII mappings are not part of this model. The case-insensitive fixed expressions fold ASCII only, which is exact outside Unicode mode.
- Selection by object identity: `skipLogs` tests `includes` on object references. The model selects by position, which agrees as long as no entry object appears twice in the list, as is the case for freshly parsed entries.
- Asynchronous interleaving. Real-time requests are returned by `Receive` as `Dispatch` values, and each completion is a separate `CompleteEnrichment` call that may come in any order. A failed request still completes a merge, with an `Error:` analysis, because the service turns every failure into an entry.
- The catch branch of `handleLogsSubmit`. The batch never rejects, because every request's failure becomes an `Error:` analysis, so the branch cannot be reached; `SubmitLogs` models the normal path.
- React state batching and `useCallback` closures. The `isAnalyzing` flag, the progress counters, toasts, `console` output, the form state of the rule manager and the progress percentage are not part of this model.
- Presentation components, the random demo listener and the UDP/WebSocket example server are not part of this model.
- App.Pipeline.SubmitLogs: states the number of progress reports but not their values, which `OllamaService.BatchAnalyze` states.
