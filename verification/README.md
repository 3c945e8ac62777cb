# Verified models of the run-command engine, telemetry buffers and command plumbing

This project models, in Dafny 4.11, the parts of the repository whose correctness is
hardest to see from the code, and proves what those parts promise.

`dafny verify dfyconfig.toml` checks everything.

## What is modelled

**The rc engine (`crates/bazelrc`).** It compiles `.bazelrc` text to a flat list of flags.

| file | part |
|---|---|
| `Preprocess.dfy` | joining of continuation lines, trimming, dropping of blank lines |
| `Tokenize.dfy` | the three-state tokenizer, against a grammar of rc lines |
| `RoundTrip.dfy` | printing rows of tokens as rc text and reading them back |
| `Rc.dfy` | options, errors, buckets, and the algebra of version gates |
| `Walks.dfy` | depth-first descent with a stack against the graph statement of success; shared by imports and configs |
| `Parse.dfy`, `ParseTheory.dfy` | recursive parsing into shared buffers, as textual inlining with provenance |
| `RcText.dfy` | parsing from the words in a file: what each row adds, where it leads, what stops it |
| `ImportGates.dfy` | the gates of nested imports, all of them against the innermost |
| `Expand.dfy`, `ExpandTheory.dfy` | in-place expansion of `--config=` |
| `RunCommand.dfy`, `RunTheory.dfy` | the resolved run command: lookup, overlay, pushed flags, loading, version filter |
| `Lookups.dfy` | inheritance, config sections, the platform switch and overlaid settings, command by command |
| `RunGates.dfy` | a command's options under all the gates of imports and configs |
| `FlagValues.dfy`, `FlagTheory.dfy` | value queries, and the split of an option list for the command line |
| `FlagReadings.dfy` | what a flag is set to on that command line, against what the queries answer |
| `Announce.dfy`, `ConfigOrder.dfy`, `Wrap.dfy` | the structure of the disclosure, the order of its config sections, its wrapping |

The importer and the expander are classes whose fields are the buffers the recursion
shares. Each of their methods is proved equal to a pure function (`Inline` with `Absorb`,
and `Expand`), and the promises are proved about those functions. The file system is a
finite map from written paths to canonical paths and from canonical paths to text.
Version matching is an arbitrary predicate.

**Telemetry held back until exporters exist (`crates/aspect-cli`).** `TraceBuffer.dfy` has
the two buffering exporters and `FileSinks.dfy` the file-sink layer, each as a class whose
methods are the sections run under one lock. `TraceBufferTheory.dfy` and
`FileSinkRuns.dfy` build step systems from the same functions: a run is any sequence of
lock sections, accesses to the flag, and deliveries, taken from any number of threads. The
theorems are about every run. For the exporters nothing but eviction loses a record. For
the file sinks, where sinks, flag and buffer are guarded separately, events can be lost;
the exact condition is proved, with a run that loses one.

**Names, commands, panes.** `TaskNames.dfy` and `TaskNameRuns.dfy` sanitize CI labels and
reserve names against concurrent processes. `TaskTree.dfy`, `TaskTreeTheory.dfy` and
`TaskNode.dfy` hold the tree of task commands: as a value, what it accepts, and as nodes
updated in place. `Panes.dfy` removes exited panes in place and repairs the active index.

`Prelude.dfy` holds the few facts on sequences that several files use.

## Where the code differs from a natural reading

These are modelled as the code has them.

- A gate on an inner import or section replaces the outer one; gates are not conjoined
  (`crates/bazelrc/src/parse.rs:104`, `crates/bazelrc/src/expand.rs:110`).
  `ImportGates.ImportGatesKeepSubsequence` and `ExpanderTheory.StrictGatesKeepSubsequence` say
  exactly when that makes a difference, and `RunGates.ApplicableContainsStrict` puts both together.
- Processing text is not idempotent: joining and trimming (`crates/bazelrc/src/preprocess.rs:4`,
  `crates/bazelrc/src/preprocess.rs:7`) can each uncover a continuation.
  `Preprocessor.ProcessIsStableIff` says exactly for which texts.
- A lone trailing backslash makes an empty token (`crates/bazelrc/src/tokenize.rs:38`),
  although the comment there says it is dropped;
  `Tokenizer.DanglingBackslashIsDroppedIff` says exactly when it is.
- Common options move ahead of all others on the command line
  (`crates/bazelrc/src/lib.rs:658`), so it can disagree with a value query;
  `FlagReadings.AgreementCondition` is the exact condition.
- Folding a bare token into a common boolean flag takes its setting away (`crates/bazelrc/src/lib.rs:762`);
  `FlagReadings.BoolReadsAlikeIff` says for which tokens.
- The exemption of the platform config covers any top-level request for it
  (`crates/bazelrc/src/expand.rs:92`), not only the inserted one.
- A span batch larger than the cap makes the span buffer exceed its documented bound
  (`crates/aspect-cli/src/trace_buffer.rs:9`, `crates/aspect-cli/src/trace_buffer.rs:109`).
- The blank run command is a left identity of overlaying only for run commands that name
  no skippable config twice (`crates/bazelrc/src/lib.rs:625`).

## Model

| member | source | states |
|---|---|---|
| Preprocessor.ProcessJoinsLines | crates/bazelrc/src/preprocess.rs:2-13 | for every text, the two replacements are two passes of joining over physical lines: first those ending in backslash and carriage return, then those ending in a backslash; then trimming and dropping of empty lines |
| Preprocessor.RemoveJoinsMarked | crates/bazelrc/src/preprocess.rs:4 | deleting every occurrence of a mark and newline from a text is joining exactly the lines, other than the last, that end in the mark |
| Preprocessor.ProcessKeepsPlainLines | crates/bazelrc/src/preprocess.rs:5-12 | lines that are trimmed, non-empty and free of continuation marks come back unchanged |
| Preprocessor.ContinuationLeftIff | crates/bazelrc/src/preprocess.rs:3-4 | before any trimming, one joining pass leaves a continuation behind if and only if some line ends in two backslashes and all that is joined to it vanishes |
| Preprocessor.ProcessIsStableIff | crates/bazelrc/src/preprocess.rs:2-13 | for every text, processing the processed lines returns them if and only if, once continuations are joined, no line that ends in a backslash after trimming has a line that is not blank behind it |
| Preprocessor.ProcessTwiceDiffers | crates/bazelrc/src/preprocess.rs:3-4 | around any two plain words there is a text, with a doubled backslash before an empty line, that a second processing joins further |
| Preprocessor.BlankHidesContinuation | crates/bazelrc/src/preprocess.rs:4-10 | so is there one in which trimming alone uncovers the continuation |
| Preprocessor.TrimRemovesEdges | crates/bazelrc/src/preprocess.rs:7-10 | trimming deletes spaces, tabs and carriage returns from both ends, and nothing else |
| Preprocessor.ContinuationsInText | crates/bazelrc/src/preprocess.rs:4-10 | in text, a backslash before a line feed, or before a carriage return and a line feed, joins two lines; either line ending by itself separates them |
| Tokenizer.Tokenize | crates/bazelrc/src/tokenize.rs:2-88 | the loop over characters with its state, current token and in-token flag computes the recursive scan of the line |
| Tokenizer.TokensAreWords | crates/bazelrc/src/tokenize.rs:17-87 | every well-formed line, in whatever mixture of quoting styles, is read as the words its grammar gives it |
| Tokenizer.EveryLineIsWellFormed | crates/bazelrc/src/tokenize.rs:17-87 | the grammar covers every string, so the reading above is the tokenizer's whole behaviour |
| Tokenizer.DanglingBackslashIsDroppedIff | crates/bazelrc/src/tokenize.rs:38-45 | a dangling backslash is dropped if and only if it directly follows a token; standing alone it adds exactly one empty token |
| Tokenizer.BlanksAndComments | crates/bazelrc/src/tokenize.rs:19-31 | in text, spaces and tabs separate words, and a `#` ends the line, also within a word |
| Tokenizer.QuotesAndEscapes | crates/bazelrc/src/tokenize.rs:32-80 | in text, either quote takes all characters but itself and the backslash as they are, a backslash does so for the next one in and out of quotes, and pieces that touch are one word |
| RoundTrip.PrintThenRead | crates/bazelrc/src/tokenize.rs:2-88 | any rows of one or more newline-free tokens, any other characters and empty tokens included, printed single-quoted and then processed and tokenized, come back exactly |
| RoundTrip.RowIsOnePlainLine | crates/bazelrc/src/preprocess.rs:4-12 | a printed row is one line that preprocessing leaves alone |
| Rc.InnermostIsLastGate | crates/bazelrc/src/expand.rs:104-115 | the condition that reaches an option is the last gate present on its way, else the enclosing one |
| Rc.SingleGateDecides | crates/bazelrc/src/expand.rs:104-115 | with at most one distinct gate on the way, the innermost gate holds exactly when all do |
| Walks.DescentIffAllWalksClean | crates/bazelrc/src/parse.rs:25-33 | a descent that refuses bad nodes and nodes on its stack goes through if and only if every walk from the node repeats nothing, meets nothing bad and stays off the stack |
| Parser.RcParser.ParseFile | crates/bazelrc/src/parse.rs:12-142 | on success and on failure, sources and buckets have grown by exactly the inlined text up to the failing directive, the error is the inlining's, and on success the import stack is restored; the recursion terminates |
| Parser.RcParser.ParseLines | crates/bazelrc/src/parse.rs:44-138 | the loop over lines grows the buffers by the inlining of the lines read, and stops at the first failing one |
| Parser.RcParser.ParseLine | crates/bazelrc/src/parse.rs:47-137 | each directive, its arity errors and missing targets included, has the effect of its inlined text |
| Parser.RcParser.PushSection | crates/bazelrc/src/parse.rs:111-136 | a section line appends its values, in order, to its own bucket and to no other |
| Parser.AbsorbNested | crates/bazelrc/src/parse.rs:100-109 | absorbing an import's entries with a gate put on top is absorbing the import under the inherited condition and a shifted source index |
| ParserTheory.BucketsGrowByText | crates/bazelrc/src/parse.rs:111-136 | for every key the new bucket is the old one followed by the options of that key in the inlined text |
| ParserTheory.InlinedTextIsTraced | crates/bazelrc/src/parse.rs:35-137 | every inlined line stands in the file it is attributed to, its visit names that file in sources, and its gates are those of a real chain of imports leading there |
| ParserTheory.ParsingKeepsConsistent | crates/bazelrc/src/parse.rs:111-136 | parsing keeps every option in the bucket of its own command with a source index in range |
| ParserTheory.ParsesIffImportsAreClean | crates/bazelrc/src/parse.rs:20-137 | a file parses if and only if it exists and every chain of imports from it repeats no file and meets only readable files with directives of the right arity and existing required targets; diamonds are fine |
| ParserTheory.InlineIffDescends | crates/bazelrc/src/parse.rs:25-137 | the same for any import stack: inlining succeeds exactly when the stack-guarded descent does |
| ParserTheory.TextIgnoresStack | crates/bazelrc/src/parse.rs:25-33 | on success the text does not depend on the import stack |
| ParserTheory.ReportedCycleIsReal | crates/bazelrc/src/parse.rs:26-32 | a reported import cycle is a real chain of imports whose last file occurs earlier in it |
| RcText.ImportsAreInlined | crates/bazelrc/src/parse.rs:53-91 | for a file of printed rows: a row `import` or `try-import` with a path that leads to a file, as written or below the workspace's root, adds the text of that file |
| RcText.GatedImportsAreInlined | crates/bazelrc/src/parse.rs:92-110 | a row `try-import-if-bazel-version` adds the text of its file under its gate, and nothing if there is none |
| RcText.MissingOptionalImportIsNoRow | crates/bazelrc/src/parse.rs:73-91 | wherever it stands, a `try-import` of a path that leads nowhere is as good as absent |
| RcText.MissingImportStops | crates/bazelrc/src/parse.rs:59-62 | an `import` of such a path stops there, with the text so far and an error that names the path |
| RcText.WrongArityStops | crates/bazelrc/src/parse.rs:54-58 | so does any import directive with the wrong number of words, with an error that quotes its line |
| RcText.SectionRowsAreEntries | crates/bazelrc/src/parse.rs:111-136 | every other row is a section line: its first word the section, the rest the values |
| RcText.NoRows | crates/bazelrc/src/parse.rs:20-42 | what a missing path, a file being read already, an unreadable file and an empty one inline, with the error of each |
| ImportGates.TrailIsInlined | crates/bazelrc/src/parse.rs:53-137 | where parsing succeeds, every section line at the end of a chain of imports is in the inlined text with exactly that chain's gates |
| ImportGates.ImportGatesKeepSubsequence | crates/bazelrc/src/parse.rs:96-108 | for every section, the options of lines all of whose import gates hold are a subsequence of those whose own condition holds, and all of them if and only if no chain of imports has a holding innermost gate over a failing one |
| ImportGates.NestedImportForgetsOuterGate | crates/bazelrc/src/parse.rs:104 | three files under two nested gated imports: an option is kept although the outer gate fails |
| ImportGates.VisitTrails | crates/bazelrc/src/parse.rs:35-109 | each visit to a file has one chain of imports, and all lines read in it carry its gates |
| Expander.ConfigExpander.ExpandArgs | crates/bazelrc/src/expand.rs:52-133 | the shared list grows by exactly the macro expansion of the arguments, up to the failing flag if one fails; the ancestor chain comes back unchanged; the recursion terminates |
| Expander.ConfigExpander.ExpandArg | crates/bazelrc/src/expand.rs:67-130 | one argument: cycle, missing config, skip and platform exemption, recursion or plain flag |
| Expander.ConfigExpander.GatherOptions | crates/bazelrc/src/expand.rs:79-87 | a config's body is its always, common, ancestor and command sections in that order |
| Expander.ConfigExpander.PassDown | crates/bazelrc/src/expand.rs:106-115 | options without a gate take the triggering flag's, others keep theirs |
| Expander.InheritCommutes | crates/bazelrc/src/expand.rs:104-115 | handing a gate down before expanding gives the results of expanding first and putting the gate outermost |
| Expander.ExpandConfigs | crates/bazelrc/src/expand.rs:14-50 | expansion for a command starts from its options, with the platform config in front when the switch is among them |
| ExpanderTheory.ExpandConcat | crates/bazelrc/src/expand.rs:66-131 | expansion distributes over concatenation of arguments; the first failure decides |
| ExpanderTheory.ExpandsInPlace | crates/bazelrc/src/expand.rs:63-130 | a flag between others contributes exactly its own expansion, where it stands; a config contributes its body's |
| ExpanderTheory.ExpansionIgnoresChain | crates/bazelrc/src/expand.rs:69-73 | on success the ancestor chain has served as a guard only |
| ExpanderTheory.KeepsExactlyWhatIsReached | crates/bazelrc/src/expand.rs:66-131 | what is kept is exactly the plain options some chain of configs leads to, with the flags on the way |
| ExpanderTheory.NoConfigSurvives | crates/bazelrc/src/expand.rs:67-129 | no `--config=` flag is left in the result, whether or not the expansion succeeds |
| ExpanderTheory.ExpandsIffConfigsAreClean | crates/bazelrc/src/expand.rs:69-102 | expansion succeeds if and only if from every requested config, the exempt platform one aside, every chain repeats none and meets only configs that are defined or skippable |
| ExpanderTheory.PlatformRequestIsExemptAtTop | crates/bazelrc/src/expand.rs:89-101 | with the switch on, a user's own top-level request for the undefined platform config is dropped, while the same request inside another config is an error |
| ExpanderTheory.ReportedCycleIsReal | crates/bazelrc/src/expand.rs:69-73 | a reported config cycle is a real chain of configs that closes on itself |
| ExpanderTheory.FilteringSeesInnermost | crates/bazelrc/src/lib.rs:730-743 | filtering the expanded options looks at the innermost gate only |
| ExpanderTheory.StrictGatesKeepSubsequence | crates/bazelrc/src/expand.rs:104-126 | for any account of the gates behind each flag: options all of whose gates hold are a subsequence of what filtering keeps, and all of it if and only if no chain of configs leads to an option with a failing gate hidden behind a holding innermost one |
| ExpanderTheory.SingleGatesFilterExactly | crates/bazelrc/src/expand.rs:104-126 | with at most one distinct gate behind each option and the flags on its way, filtering is exact |
| ExpanderTheory.NestedGateReplacesOuter | crates/bazelrc/src/expand.rs:110-112 | for every config name and plain flag, a setting in which a failing outer gate is forgotten |
| Lookups.ConfigRequest | crates/bazelrc/src/expand.rs:67-128 | for every name, `--config=name` stands for the config's sections, may be missing if it is skippable or the platform's own at the top, and is otherwise a cycle or an undefined config, reported by name |
| Lookups.ConfigSections | crates/bazelrc/src/expand.rs:79-87 | the sections a config stands for, in order: `always:`, `common:`, then for the commands that inherit `build:`, or `build:` and `test:`, and the command's own |
| Lookups.PlatformSwitch | crates/bazelrc/src/expand.rs:19-35 | with `--enable_platform_specific_config` among a command's options, what the platform's config stands for comes first and then what the options expand to by themselves; without it, just that |
| RunCommands.Load | crates/bazelrc/src/lib.rs:156-203 | loading absorbs the files in order, the first failure decides, and the caller's flags become the command line |
| RunTheory.LoadsIffEachParses | crates/bazelrc/src/lib.rs:168-177 | a list of files loads if and only if each parses by itself, and what is loaded is consistent |
| RunTheory.BlankHoldsItsFlags | crates/bazelrc/src/lib.rs:241-261 | a run command that reads no files answers every lookup but the one for `always` with exactly the flags it was given, in order, as command-line options of source 0; `always` lists them twice |
| RunTheory.AddedFlagsAreCommandLine | crates/bazelrc/src/lib.rs:179-192 | added flags keep the run command consistent and are exactly its command-line flags; file flags stay |
| RunCommands.RunCommand.PushFlag | crates/bazelrc/src/lib.rs:582-601 | a pushed flag goes to the end of `always` under the first command-line source, which is created when missing |
| RunTheory.PushAppends | crates/bazelrc/src/lib.rs:582-601 | every lookup afterwards is the old one with the flag last, its text and gate as given, under a `<command line>` source; the lookup for `always` itself shows it once more at the end of that section |
| RunCommands.RunCommand.Overlay | crates/bazelrc/src/lib.rs:610-634 | the loops over the other's sections, in any order, compute the overlay and mutate neither input |
| RunTheory.EveryRunCommandIsConsistent | crates/bazelrc/src/lib.rs:156-261 | however a run command is made, from files, from flags, by pushing, merging and configuring, options stand in their own sections with sources in range, and command-line options stand in `always` only |
| RunTheory.MergeAssociates | crates/bazelrc/src/lib.rs:610-634 | overlaying is associative |
| RunTheory.BlankIsNeutral | crates/bazelrc/src/lib.rs:241-261 | the blank run command is neutral on the right, and on the left if and only if no skip name is repeated |
| RunTheory.MergeKeepsSources | crates/bazelrc/src/lib.rs:612-621 | every option keeps its text, section, gate and the path it came from, with indices in range |
| RunTheory.MergedAlways | crates/bazelrc/src/lib.rs:303-312 | command-line flags stay command-line flags and file flags file flags, each in both inputs' order |
| RunTheory.MergeInterleavesSections | crates/bazelrc/src/lib.rs:302-336 | lookup in an overlay interleaves both lookups section by section, both inputs' command lines last |
| RunTheory.LookupEndsInCommandLine | crates/bazelrc/src/lib.rs:296-336 | the lookup for every command is the file sections followed by all command-line flags |
| Lookups.LookupOrder | crates/bazelrc/src/lib.rs:13-20 | for every command by name: file flags of `always`, `common`, then `build` for `test`, `run`, `clean`, `mobile-install`, `info`, `print_action`, `config`, `cquery` and `aquery`, `build` and `test` for `coverage`, `fetch` and `vendor`, nothing for others, then its own section and the command line |
| Lookups.AlwaysIsSplit | crates/bazelrc/src/lib.rs:303-312 | `always` is split by whether an option's source is `<command line>`, both parts in order |
| Lookups.OverlaidVersion | crates/bazelrc/src/lib.rs:630-632 | for any run commands overlaid from left to right, the version is that of the last one that has any |
| Lookups.OverlaidStartup | crates/bazelrc/src/lib.rs:622-624 | the startup flags are all of theirs, in that order |
| Lookups.OverlaidSkips | crates/bazelrc/src/lib.rs:625-629 | the skippable configs are the lower run command's, then each new one of the upper once, in its order |
| RunTheory.OverlayCommandLineWins | crates/bazelrc/src/lib.rs:605-634 | at the version asked for, or else the overlay's own, which is the upper run command's if it has one, and for every command where options resolve: a flag set in any ungated, config-free tail of the upper command line, whatever stands before the tail, reads as the tail's last value, for value and for boolean flags |
| RunTheory.PlainTailApplies | crates/bazelrc/src/lib.rs:705-745 | whatever stands before them, plain trailing options come through expansion and version filtering to the very end |
| RunTheory.AdmitConcat | crates/bazelrc/src/lib.rs:730-743 | version filtering works piece by piece; the first unreadable gate decides |
| RunGates.AdmitIsFilter | crates/bazelrc/src/lib.rs:730-743 | version filtering fails if and only if some gate cannot be read, and else keeps exactly the options whose own condition holds |
| RunGates.ApplicableContainsStrict | crates/bazelrc/src/lib.rs:705-745 | for every command and version that resolves, the options all of whose gates hold, those of imports and of configs, behind the option and behind every flag on its way, are a subsequence of those that apply, and all of them if and only if no chain of configs leads to an option with a failing gate hidden behind a holding one |
| RunGates.LineGatesAreTheTrail | crates/bazelrc/src/parse.rs:35-137 | for every file read in a load, every section line stands under exactly the gates of the trail of its own visit, a real chain of imports from that file |
| RunGates.TrailsExist | crates/bazelrc/src/lib.rs:156-634 | every run command, loaded, blank, pushed to, merged or configured, has such trails, one per source, merged in the order of the sources |
| RunGates.EveryRunCommandIsExplained | crates/bazelrc/src/lib.rs:156-634 | and whichever they are, they account for the condition of every option, its own condition standing in on the command line, so the comparison above applies to every run command |
| RunCommands.FindApplicable | crates/bazelrc/src/lib.rs:705-745 | the choice of version, the early exit for ungated lists and the filtering loop compute the admitted options at the version asked for, later than all if it cannot be read, or else the run command's own; or the first unreadable gate |
| FlagValues.FlagValueList | crates/bazelrc/src/lib.rs:817-833 | the loop computes the values read from every option and the one after it |
| FlagValues.ValuesConcat | crates/bazelrc/src/lib.rs:817-833 | values of a concatenation are the values of the parts, the first read with the head of the second behind it |
| FlagValues.LastBoolFlag | crates/bazelrc/src/lib.rs:838-858 | the loop computes what the last deciding option says |
| FlagValues.LastBoolConcat | crates/bazelrc/src/lib.rs:838-858 | later options decide before earlier ones |
| FlagReadings.LastSettingIsAnswered | crates/bazelrc/src/lib.rs:817-833 | the value query answers with what is set last, as `name=value` or as two tokens; a dash-led token is no value and other flags change nothing |
| FlagReadings.LastWordIsAnswered | crates/bazelrc/src/lib.rs:838-858 | the boolean query answers true after the flag or its word `true`, `1` or `yes`, false after its negation or `false`, `0` or `no`, and is unchanged by anything else |
| FlagValues.PartitionExpandAll | crates/bazelrc/src/lib.rs:770-797 | the index loop with its lookahead computes the folded overrides and the untouched other flags |
| FlagTheory.GroupsUseEachCommonOnce | crates/bazelrc/src/lib.rs:779-790 | every common option is used exactly once and in order, alone or in a pair |
| FlagTheory.OthersPassThrough | crates/bazelrc/src/lib.rs:791-793 | all other options pass unchanged, in order, with their gates |
| FlagTheory.SplitByOption | crates/bazelrc/src/lib.rs:770-815 | the split, option by option, from section and text: a flag of its own outside `common`, else one `--default_override=0:common=` token, with the value behind it folded in if it stands in the same section under the same gate |
| FlagTheory.FoldingKeepsValues | crates/bazelrc/src/lib.rs:770-833 | within one section and gate, every dash-led flag name without `=` has the same values before and after folding |
| FlagReadings.CommandLineReadsCommonsFirst | crates/bazelrc/src/lib.rs:658-667 | for every option list and every way of reading tokens that skips bare values: read token by token, the command line says first what each common option says, its value folded in, and then what each other option says before the next that is not common |
| FlagReadings.SplitKeepsOrder | crates/bazelrc/src/lib.rs:770-797 | without a common setting behind another section's, the split does not reorder a flag's settings |
| FlagReadings.CommandLineAgreesWithQuery | crates/bazelrc/src/lib.rs:817-833 | when besides each option says on the command line what the query reads there, the command line has exactly the values that the query lists, in their order |
| FlagReadings.AgreementCondition | crates/bazelrc/src/lib.rs:658-667 | for every option list: the effective setting differs from the last one the query reads if and only if the option that decides the command line (the last speaking one from outside `common`, else the last speaking common one) gives another setting than the last option the query reads, or only one side finds any |
| FlagReadings.OrderCondition | crates/bazelrc/src/lib.rs:658-667 | where each option is read alike, they differ if and only if the last option that sets the flag is a common one, some option from another section sets it earlier, and the last of those sets another value |
| FlagReadings.ValueReadsAlikeIff | crates/bazelrc/src/lib.rs:807-833 | an option's value is read otherwise on the command line exactly when it is the bare common flag with a value in another section or under another gate, the bare other flag with another next token once common options are taken out, or itself an override |
| FlagReadings.ValuesAgreeUnlessOverruled | crates/bazelrc/src/lib.rs:817-833 | both conditions for the value query: the general one on every list, the one by order alone where no such token occurs |
| FlagReadings.BoolReadsAlikeIff | crates/bazelrc/src/lib.rs:744-858 | an option's boolean state is read otherwise exactly when a token other than a word for true is folded into the bare common flag, any token into its negation, or it is itself an override |
| FlagReadings.BooleansAgreeUnlessOverruled | crates/bazelrc/src/lib.rs:838-858 | the last deciding token on the command line against the boolean query, with the same two conditions |
| FlagReadings.QueryAndCommandLineDisagree | crates/bazelrc/src/lib.rs:658-667 | for every flag name, any setting from a `common` config behind one from another section is what the query answers, while the earlier one takes effect |
| FlagReadings.FoldedBooleanIsLost | crates/bazelrc/src/lib.rs:762-769 | for every boolean flag in a common section followed by a bare token that is no boolean word: the query answers true, the command line leaves it unset |
| Wrapping.WrapFlags | crates/bazelrc/src/lib.rs:401-427 | the column-counting loop prints the greedy lines |
| Wrapping.WrappingKeepsFlags | crates/bazelrc/src/lib.rs:399-427 | wrapping preserves the flag sequence, exceeds the width only on a line of one flag, and breaks only where the next flag would not fit |
| Wrapping.PrintedInLines | crates/bazelrc/src/lib.rs:417-422 | the text printed is those lines, one below the other, all but the first behind the indent |
| Wrapping.WidthIsPrinted | crates/bazelrc/src/lib.rs:409-420 | the columns counted are the bytes of the line as printed |
| ConfigOrder.SortedConfigKeys | crates/bazelrc/src/lib.rs:449-470 | the config sections listed are exactly the applicable ones, sorted by config name and then by rank |
| ConfigOrder.OrderIsDetermined | crates/bazelrc/src/lib.rs:464-470 | the sort leaves no choice: the set of keys determines the list |
| ConfigOrder.RankIsExpansionOrder | crates/bazelrc/src/lib.rs:441-448 | a base's rank is its position in the order in which expansion looks sections up |
| ConfigOrder.ApplicableIffLookedUp | crates/bazelrc/src/lib.rs:449-463 | the config sections listed are those of the bases under which expansion looks configs up |
| ConfigOrder.OrderMeans | crates/bazelrc/src/lib.rs:464-470 | sections are grouped by config, names ascending, and within a config by rank |
| ConfigOrder.BeforeAtFirstDifference | crates/bazelrc/src/lib.rs:464-470 | names ascend as strings do: a prefix first, else the smaller character where two first differ |
| Announcing.ShownConfigsFollowExpansion | crates/bazelrc/src/lib.rs:433-439 | in every block the config sections shown keep the sorted order, and those of one config stand in the order in which expansion applies them |
| Announcing.ShownSectionsFollowLookup | crates/bazelrc/src/lib.rs:482-510 | in every block the direct sections stand in the order of the lookup, behind the startup flags |
| Announcing.Announce | crates/bazelrc/src/lib.rs:485-574 | the loop over sources builds one block per source that has something to say |
| Announcing.EverythingIsAnnouncedOnce | crates/bazelrc/src/lib.rs:482-574 | every startup option, every option of the lookup by command and every option of every applicable config section is announced exactly as often as it occurs, and nothing else is |
| Announcing.LookupIsDirectSections | crates/bazelrc/src/lib.rs:482-484 | for every command, the announced direct sections are the startup section and a permutation of the lookup |
| Announcing.BlocksAreFaithful | crates/bazelrc/src/lib.rs:489-531 | every option stands under its own source and its own section, and blocks follow the order of the sources |
| TraceBuffers.BulkEviction | crates/aspect-cli/src/trace_buffer.rs:109-115 | evicting as many of the oldest as the batch lacks room for leaves exactly the newest that fit |
| TraceBuffers.BufferingSpanExporter.ExportLocked | crates/aspect-cli/src/trace_buffer.rs:106-119 | the locked section buffers the batch and keeps the newest, or leaves the state alone and hands out the installed exporters |
| TraceBuffers.BufferingSpanExporter.InstallLocked | crates/aspect-cli/src/trace_buffer.rs:71-78 | the locked section appends the exporters, switches to live and takes the whole buffer |
| TraceBuffers.BufferingLogExporter.ExportLocked | crates/aspect-cli/src/trace_buffer.rs:203-215 | the same for log records, evicted one at a time |
| TraceBuffers.BufferingLogExporter.InstallLocked | crates/aspect-cli/src/trace_buffer.rs:172-179 | the same installation section for log records |
| TraceBufferTheory.BufferHoldsTheNewest | crates/aspect-cli/src/trace_buffer.rs:106-119 | after any batches the log buffer is exactly the newest cap-many records, the span buffer the newest that fit into the cap or the biggest batch |
| TraceBufferTheory.SpansRefineLogs | crates/aspect-cli/src/trace_buffer.rs:203-215 | bulk and one-at-a-time eviction agree if and only if no batch exceeds the cap; the span buffer exceeds the cap if and only if some batch does, and never the larger of the two |
| TraceBufferTheory.RunsAreOrderly | crates/aspect-cli/src/trace_buffer.rs:63-124 | in every interleaving exporters are in installation order, pending calls go to installed exporters only, and the buffer is what was kept until the first installation |
| TraceBufferTheory.EveryExporterGetsItsDue | crates/aspect-cli/src/trace_buffer.rs:94-124 | in every interleaving, each record owed to an exporter is in exactly one place: pending for it or handed to it |
| TraceBufferTheory.DueOfAnInstall | crates/aspect-cli/src/trace_buffer.rs:67-78 | what an exporter is owed: for the first installation everything kept before it and accepted since, for later ones what was accepted since |
| TraceBufferTheory.AtQuiescenceNothingIsLost | crates/aspect-cli/src/trace_buffer.rs:63-124 | once all calls are finished every exporter has been handed exactly what it is owed, each record once |
| TraceBufferTheory.EveryRunCanSettle | crates/aspect-cli/src/trace_buffer.rs:87-89 | from every reachable state deliveries alone lead to that end |
| TraceBufferTheory.BufferedOrEvicted | crates/aspect-cli/src/trace_buffer.rs:108-116 | before any installation, what was accepted is what was evicted followed by what is buffered, and nothing is evicted from a buffer below the cap |
| TraceBufferTheory.EmptyInstallForfeitsTheBuffer | crates/aspect-cli/src/trace_buffer.rs:71-82 | after an installation of no exporters, every exporter installed later is owed only what is accepted since: the buffer is forfeited |
| FileSinks.FileSinksLayer.OfferToSinks | crates/aspect-cli/src/trace.rs:207-216 | the section under the sinks' lock writes the event once to every sink that accepts its kind |
| FileSinks.FileSinksLayer.StoreEvent | crates/aspect-cli/src/trace.rs:221-231 | the section under the buffer's lock keeps the newest events |
| FileSinks.FileSinksLayer.ReplayToSinks | crates/aspect-cli/src/trace.rs:146-154 | the nested loops write every event, in order, to every accepting sink |
| FileSinks.ReplayKeepsOrder | crates/aspect-cli/src/trace.rs:146-154 | each sink gets, in order, the log records if its logs are on and the span events if its traces are |
| FileSinks.FileSinksLayer.OnEvent | crates/aspect-cli/src/trace.rs:187-232 | undisturbed, an `axl.log` event reaches exactly the sinks with logs on and an `axl.event` those with traces on; without sinks it is buffered, the oldest of 50,000 giving way, or dropped after the drain; other targets are ignored |
| FileSinks.FileSinksLayer.DrainBufferToSinks | crates/aspect-cli/src/trace.rs:134-155 | undisturbed, a first drain replays the whole buffer to all sinks; a later one does nothing |
| FileSinks.FileSinksLayer.DiscardBuffer | crates/aspect-cli/src/trace.rs:160-169 | a first disposal empties the buffer; a later one does nothing |
| FileSinks.FileSinksLayer.ActivateFileSpec | crates/aspect-cli/src/trace.rs:588-614 | a spec whose file opens adds one sink, any other leaves the sinks alone |
| FileSinks.FileSinksLayer.InstallLate | crates/aspect-cli/src/trace.rs:626-679 | undisturbed, an installation adds the sinks before the first failing spec, and drains or discards only if none fails; an empty list changes nothing |
| FileSinks.NewSinksStopAtFailure | crates/aspect-cli/src/trace.rs:626-679 | the new sinks are those of the file specs before the first spec that fails, in order and empty |
| FileSinkRuns.UndisturbedEmission | crates/aspect-cli/src/trace.rs:187-232 | the steps of one emission, run without interference, do what the whole call is proved to do |
| FileSinkRuns.UndisturbedDrain | crates/aspect-cli/src/trace.rs:134-169 | so do the steps of a drain and of a disposal, first or later |
| FileSinkRuns.StepIsSound | crates/aspect-cli/src/trace.rs:187-232 | every step of every thread keeps the invariant that ties lines, buffer, replay and fates together |
| FileSinkRuns.AtMostOnce | crates/aspect-cli/src/trace.rs:119-155 | in every interleaving no event is written to a sink twice, none to a sink that refuses its kind, and the buffer never exceeds its cap |
| FileSinkRuns.SignalsDecide | crates/aspect-cli/src/trace.rs:241-248 | in every interleaving a sink has log records only if its logs are on and span events only if its traces are, and an emission that found it is written there exactly if its own signal is on |
| FileSinkRuns.WrittenExactlyWhen | crates/aspect-cli/src/trace.rs:187-232 | a finished emission is written to an accepting sink if and only if it found the sink installed, or the drain caught it among the newest stored and knew the sink |
| FileSinkRuns.OnceIfFinishedBefore | crates/aspect-cli/src/trace.rs:139-154 | an emission finished before any installation began is written exactly once to every accepting sink of the drain, unless the cap or more events were stored from it up to the drain's taking of the buffer |
| FileSinkRuns.OnceIfStartedAfter | crates/aspect-cli/src/trace.rs:207-215 | an emission that started once a sink was installed is written to it exactly once |
| FileSinkRuns.StoredTooLateIsLost | crates/aspect-cli/src/trace.rs:218-231 | an event stored after the drain took the buffer never reaches any sink, in any continuation |
| FileSinkRuns.StraddlingEmissionIsLost | crates/aspect-cli/src/trace.rs:207-220 | a run of one emitter and one installation in which an accepted event is written nowhere |
| TaskNames.SanitizeName | crates/axl-runtime/src/ci.rs:119-135 | the loop with its pending dash joins the label's words by single dashes |
| TaskNames.SanitizingIsCanonical | crates/axl-runtime/src/ci.rs:116-135 | results are canonical and stable, exactly canonical names are left alone, two labels agree if and only if they have the same words, and nothing comes back if and only if there is no name character |
| TaskNames.SanitizingKeepsNameChars | crates/axl-runtime/src/ci.rs:119-135 | dashes apart, a name keeps exactly the letters, digits and underscores of its label, in order and case |
| TaskNames.ShardsAreDistinct | crates/axl-runtime/src/ci.rs:84-90 | within one job, shards of different words get different, canonical names |
| TaskNames.JobWithoutShard | crates/axl-runtime/src/ci.rs:84-90 | a job without a shard, or with one that has no name character, goes by its own name; without a job name there is none |
| TaskNames.ClaimDir.Claim | crates/axl-runtime/src/ci.rs:185-196 | a claim creates the file exactly when it is absent and nothing fails |
| TaskNames.ClaimDir.ReserveTaskName | crates/axl-runtime/src/ci.rs:212-226 | undisturbed, the first free candidate up to the cap is won; with none, or a failure first, the bare base comes back and nothing is claimed |
| TaskNames.CandidatesDiffer | crates/axl-runtime/src/ci.rs:214-218 | candidates of one base with different numbers differ |
| TaskNames.CandidateIsNumbered | crates/axl-runtime/src/ci.rs:214-218 | the first candidate is the bare base, the n-th the base, a dash and the digits that read n |
| TaskNameRuns.RunsAreExclusive | crates/axl-runtime/src/ci.rs:180-197 | in every interleaving each claimed file belongs to exactly one winner |
| TaskNameRuns.WinnersDiffer | crates/axl-runtime/src/ci.rs:173-226 | two finished processes, of whatever bases, are given one name only if one of them fell back |
| TaskNameRuns.BasesOverlap | crates/axl-runtime/src/ci.rs:214-218 | every later candidate of a base is the first of another base, so different bases compete for one file |
| TaskNameRuns.NamesHaveNoGaps | crates/axl-runtime/src/ci.rs:212-226 | with one base, a directory free of it and no failure, at every moment, others still trying or not: when k processes have finished, the names claimed are exactly the first k, or the first as many as the cap where k exceeds it, each held by a process, and one has fallen back if and only if k exceeds the cap |
| TaskTree.InsertFailsIffBlocked | crates/aspect-cli/src/cmd.rs:1324-1353 | an insertion is refused if and only if a task stands at a prefix of its path or the path is a group |
| TaskTree.InsertChangesOnePath | crates/aspect-cli/src/cmd.rs:1332-1352 | a successful insertion adds its task and the groups above it and changes no other lookup |
| TaskTree.RefusalNamesTheFirst | crates/aspect-cli/src/cmd.rs:1324-1353 | a refusal names the first task standing on the path, or else the task's own name, and the whole group |
| TaskTree.LimitsComeFirst | crates/aspect-cli/src/cmd.rs:1303-1321 | more than five groups, and `feature`, `describe` and `get` at the top, are refused before the tree is looked at |
| TaskNodes.Node.InsertAt | crates/aspect-cli/src/cmd.rs:1324-1353 | on nodes updated in place, insertion computes the same tree, with the same error, and a refusal leaves the tree as it was |
| TaskNodes.Node.Insert | crates/aspect-cli/src/cmd.rs:1297-1322 | depth limit and reserved names are checked first, without touching the tree |
| TaskNodes.BuildTree | crates/aspect-cli/src/cmd.rs:104-109 | the insert loop builds the tree of all tasks or stops at the first refusal |
| TaskTreeTheory.AcceptedIffCompatible | crates/aspect-cli/src/cmd.rs:1297-1353 | a sequence of tasks is accepted if and only if depths are within the limit, no top-level kind is reserved, and no path equals or extends another |
| TaskTreeTheory.EveryTaskIsReached | crates/aspect-cli/src/cmd.rs:1332-1352 | every accepted task is found at its own path, and nothing is found elsewhere |
| TaskTreeTheory.OrderDoesNotMatter | crates/aspect-cli/src/cmd.rs:104-109 | acceptance and every lookup are the same for every order of the tasks |
| TaskTreeTheory.Attach | crates/aspect-cli/src/cmd.rs:1372-1411 | attaching fails exactly on a name taken twice at one level, and otherwise adds the commands of the tree, in whatever order |
| TaskTreeTheory.AttachedCommandsResolve | crates/aspect-cli/src/cmd.rs:1388-1406 | attached commands resolve every path to what the tree has there |
| TaskTreeTheory.OnlyBuiltinsClash | crates/aspect-cli/src/cmd.rs:1395-1404 | attaching a built tree to the root fails if and only if some task's path begins with a command the root already has |
| Panes.Multiplexer.CleanupExitedPanes | crates/pty-multiplex/src/main.rs:244-268 | in-place removal leaves exactly the live panes in order and the active index in its repaired place |
| Panes.RepairedIndexDenotes | crates/pty-multiplex/src/main.rs:249-263 | after one removal, another active pane is still denoted; a removed active pane gives way to the one that took its place, else to the last; nothing is denoted if and only if nothing is left |
| Panes.ActiveHandsOver | crates/pty-multiplex/src/main.rs:249-263 | a live active pane stays active itself, a dead one hands over to the first survivor after it, else the last survivor; none is active if and only if none is left; a valid index stays valid |

## Left out

- Real file access, environment variables and the discovery of rc files: a finite map and a list of paths stand for them; a file that changes while it is read is not modelled.
- Semver parsing and matching: any predicate. The startup flags of an invocation, where an unreadable gate counts as holding, are not modelled; they would be one more filter.
- Redaction, colours and the display form of paths in the disclosure; its text is modelled for the wrapped flags only, the rest as blocks of sections.
- Announcing.Announce: gives the blocks, their sections and options; the text around them, labels, alignment and blank lines, is presentation and not modelled.
- FlagReadings.AgreementCondition: Bazel is not modelled; its reading of the command line is taken as the comments at `crates/bazelrc/src/lib.rs:747-763` tell it: tokens in order, an override as one token, a plain flag with the token behind it, the last setting wins.
- Tokenizer.Tokenize: works on Dafny characters; text that is not valid UTF-8, which the program refuses to read, is not modelled.
- TraceBufferTheory.EveryExporterGetsItsDue: failed and cancelled deliveries are not modelled; a delivery hands over its records, as the program ignores the result.
- FileSinks.FileSinksLayer.InstallLate: OTLP exporter construction is one outcome per spec; line formats, metrics and shutdown are not modelled.
- FileSinkRuns.WrittenExactlyWhen: poisoned locks and failing writes, which the program swallows, are not modelled; reads of the flag may be arbitrarily stale, which covers the relaxed load.
- TaskNames.ShardsAreDistinct: takes the job and shard labels as found; the tables of CI variables they come from are not modelled.
- TaskTreeTheory.Attach: works on names; help texts and display order are not modelled, nor the aliases that a lookup of a subcommand would also match, as no command of the program is given one.
- TaskNameRuns.NamesHaveNoGaps: the creation of the directory is not a step; when it fails the program returns the bare base, as after any failure.
- Panes.Multiplexer.CleanupExitedPanes: whether a pane lives is a fixed predicate during one clean-up, as each pane is asked once.
- Argument parsing, help and JSON output of commands, terminal and key handling, the launcher, the credential helper, the event-stream client and the language-server tooling: input, output or thin layers over libraries.
