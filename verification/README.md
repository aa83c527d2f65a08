# Bywaf: a model in Dafny

This project models the decision-making core of Bywaf, a shell for network assessment with plugins,
pipelines and an append-only event ledger, and proves what that core keeps on all inputs and over all
runs. With Dafny 4.11:

    dafny verify dfyconfig.toml

Seven areas are covered. Each bullet names the modules, in the order in which they build on each other.

- **Signing form** (`JsonValues`, `Json`, `Sorting`, `Canonical`, `JsonReader`, `JsonRoundTrip`). Configuration
  values are rearranged and printed as JSON before they are digested. The printed bytes determine the data up to
  the order of list elements, and depend on nothing else; a reader for RFC 8259, written without a look at the
  printer, reads them back.
- **Plugin loading** (`LoadOrder`, `DependencyClosure`). A worklist collects the plugins that the
  configured ones need, and a recursive depth-first walk orders them. Both work on graphs with cycles;
  the order exists exactly when the requirements have none.
- **Command text** (`QuoteScan`, `SplitLaws`, `PipelineSyntax`, `CommandSequence`, `ReplDispatch`, `Scripts`,
  `Selectors`, `QuoteGrammar`, `CommentGrammar`, `ScriptTexts`, `Shlex`, `ShellWords`, `Remainder`, `Variables`,
  `References`, `Templates`, `TemplateLimits`). Five character loops are shown to run one quote-and-escape
  automaton, and that automaton, comment stripping and POSIX tokenising to recognise three grammars; it is settled
  which commands of a line or a script reach their handlers as written; variable expansion and tokenising together
  put every value whole into its own word exactly as long as no reference follows an apostrophe.
- **Ledger consumers and stores** (`EventLog`, `Triggers`, `TriggerRuns`, `TriggerServices`, `TriggerConditions`,
  `TriggerRecords`, `Requests`, `RuntimeEntities`, `Jobs`, `JobRuns`, `JobStatuses`, `JobLifecycles`). Trigger
  rules, the interpreter's request drain, local id allocation and background jobs are step systems over the
  ledger and the tables, with restarts, exceptions, dying processes and every interleaving.
- **Table layout** (`TableWidths`, `Tables`, `WidthLaws`). Two greedy algorithms share a width budget among columns;
  their results are characterised completely, and the rendered lines fit and align.
- **Network policy** (`Ipv4`, `Ipv4Texts`, `Ipv4Ranges`, `PolicyBlocks`, `NetworkPolicy`, `EventFilters`,
  `SelectorTexts`). Addresses, CIDR blocks and dotted ranges are handled as texts; filtering keeps only what the
  policy permits, and all of it exactly when no block is split; the event selector and the range expansion read
  one text alike exactly when it has a certain form.
- **Serials** (`Serials`). Fixed-width Crockford Base32, lookup that forgives typing, and resolution of a
  unique prefix.

`Text`, `Numbers`, `Sequences` and `Results` hold what the others share. A statement that changes state in the
program is a method here and is proved equal to a specification function; the laws are lemmas about
those functions, and the functions are tied to what they mean by laws that name neither them nor their parts:
grammars, literal texts, or a condition on the inputs. Ledger and table accesses are atomic steps, and a program
location stands for where each process is between two of them.

Where the code parts from its own documentation, or from what a reader might expect, the model follows the
code:

- The docstring of `framework_trigger_fired` promises no replay after a restart. A process that dies
  between the firing record and the cursor write does fire again (`TriggerRuns.CrashFiresTwice`). That is the
  only such point of polling, enabling and disabling, and each such death costs at most one more record
  (`TriggerRuns.RecordedOncePerCrash`).
- A trailing backslash is documented to continue a command on the next line (USAGE.md:986-994). The lines are
  joined with a line break, at which the dispatcher cuts again, so a command continued outside quotes is run
  as two (`Scripts.ManualExample`). `Scripts.ContinuedCommandReachesHandler` says exactly when it is not.
- Stripping a comment is documented for one pass, but the REPL strips the commands of a sequence again, and
  every command of a script. `ReplDispatch.SequenceReachesHandlers` and `Scripts.ScriptCommandReachesHandler`
  say exactly when that changes nothing; it can lose text even when the line has no escaped hash
  (`ReplDispatch.QuoteHidesHash`).
- Double quotes are documented to allow expansion, but the scanner takes an apostrophe between them for a
  quote. `TemplateLimits.ValuesArriveWholeExactly` says exactly which stages are safe; in the others a
  reference is copied or its value is inserted raw.
- A command rebuilt from an argv with a backslash can be cut by Bywaf's own splitters, which read a
  backslash inside single quotes as an escape. `Remainder.RemainderRoundTrip` says exactly when.
- A terminal job status can be overwritten by a sweep, a late worker or a command.
  `JobStatuses.TerminalStaysExactly` says exactly when it stays; the order of a job's events in the ledger
  is safe all the same.
- Looking up a serial by its body works for one-word prefixes; a hyphen in the prefix hides the body
  (`Serials.TwoWordPrefixHidesBody`).
- A block that the policy splits is dropped as a whole, so permitted addresses in it are lost
  (`NetworkPolicy.SplitExample`). `NetworkPolicy.SplitBlockLosesAddresses` says exactly which blocks these are,
  in terms of the few addresses at which permission can begin.

## Model

| member | source | states |
|---|---|---|
| Json.JsonUnique | bywaf/config/canonical.py:60-62 | the JSON text of a value, followed by anything that does not start with a digit, can be read back in only one way: value and rest are determined (strings with escapes, integers, lists, key-sorted tables) |
| Json.JsonInjective | bywaf/config/canonical.py:60-62 | different values have different JSON texts, so the sort key of a list element identifies the element |
| Sorting.SortedKeys | bywaf/triggers.py:148-158 | `sorted` on a set of texts: every element once, in code-point order |
| Sorting.SortedUnique | bywaf/config/canonical.py:46-57 | two sorted arrangements of the same elements under an injective key are the same list |
| Sorting.SortDependsOnContents | bywaf/config/canonical.py:46-57 | sorting by an injective key forgets the order it started from |
| Canonical.SameBytesIffSameData | bywaf/config/canonical.py:21-34 | both directions: two tables have the same canonical bytes if and only if, without the top-level signature keys, they are equal up to reordering of list elements at every depth |
| Canonical.SameIsOrderBlindEquivalence | bywaf/config/canonical.py:46-57 | the relation used there, defined without canonical forms, is an equivalence and contains every permutation of a list |
| Canonical.CanonicalIdempotent | bywaf/config/canonical.py:46-57 | canonicalising a canonical value changes nothing |
| Canonical.SignedBytesAreJson | bywaf/config/canonical.py:21-62 | the signed bytes are ASCII, and a JSON reader that is written from RFC 8259 alone reads them back as the table without its signature keys, up to the order of list elements; outside strings they hold no blank, members stand in ascending order of their names, and the elements of every list in ascending order of their texts |
| JsonRoundTrip.WrittenTextIsRead | bywaf/config/canonical.py:60-62 | the reader reads the text of every value as that value and leaves exactly what follows it, whenever what follows does not start with a digit; the names of every object ascend and nothing is blank |
| JsonRoundTrip.CharacterText | bywaf/config/canonical.py:60-62 | how every character is written in a string: two-character escapes, lower-case hexadecimal code units, surrogate pairs, or itself |
| JsonRoundTrip.StringTextConcat | bywaf/config/canonical.py:60-62 | a string is written character by character between quotes |
| JsonRoundTrip.AtMostMeans | bywaf/config/canonical.py:46-57 | the order of keys and element texts is the order of code points at the first difference, shorter texts first |
| LoadOrder.Walk.Visit | bywaf/registry/dependencies.py:105-123 | a visit keeps the walk's invariant (listed providers form a load order, the ones in progress form a requires path), fails only when there is a cycle, marks the provider and only providers it reaches, and terminates on every graph |
| LoadOrder.Walk.VisitRequired | bywaf/registry/dependencies.py:117-122 | the loop over requirements leaves every required provider that has a manifest visited, in the order in which the manifest lists them: there are cuts of the list before which exactly the first k requirements and what they require have been added |
| LoadOrder.Walk.RevisitIsCycle | bywaf/registry/dependencies.py:108-109 | meeting a provider that is being visited exhibits a cycle of the requires relation |
| LoadOrder.TopologicalFilesystemEntries | bywaf/registry/dependencies.py:91-138 | fails if and only if the requires relation restricted to providers with manifests has a cycle; otherwise lists each such provider, after everything it requires, in the order of the requests, then of the remaining names, and within a provider in the order of its requirements; requested known providers without manifest keep their places |
| LoadOrder.LoadOrderMeans | bywaf/registry/dependencies.py:105-123 | a list built step by step is a load order if and only if no provider with a manifest repeats and every requirement stands before its dependent |
| LoadOrder.CompleteOrderIsAcyclic | bywaf/registry/dependencies.py:91-138 | a load order of all providers exists only if there is no cycle |
| LoadOrder.RequestOrderKept | bywaf/registry/dependencies.py:125-132 | a requested provider precedes any later-requested one that no entry up to it requires |
| LoadOrder.RequirementOrderKept | bywaf/registry/dependencies.py:116-120 | of two requirements of one manifest the earlier one stands first in the list, unless something listed before the provider's turn or required up to it already requires the later one |
| DependencyClosure.NormalizeIdempotent | bywaf/registry/config.py:108-121 | a normalised catalog path normalises to itself |
| DependencyClosure.NormalizeMeans | bywaf/registry/config.py:108-121 | names without dots and slashes, joined by any mixture of dots and slashes, normalise to the names joined by slashes; the path is refused if and only if some name between separators is empty |
| DependencyClosure.EveryPathIsSpelled | bywaf/registry/config.py:108-121 | every path is such a spelling |
| DependencyClosure.BundledMeans | bywaf/registry/dependencies.py:60-66 | a provider is bundled if and only if the bundled set holds the path as spelled, its names joined by dots, or its names joined by slashes |
| DependencyClosure.CollectManifests | bywaf/registry/dependencies.py:37-70 | the worklist terminates on every finite tree, fails if and only if a path it has to look at is not a catalog path, and otherwise returns exactly the least set that holds the configured providers with a manifest and is closed under local, unbundled dependencies |
| DependencyClosure.ClosureIsUnique | bywaf/registry/dependencies.py:37-70 | that closure is determined by the configuration |
| DependencyClosure.ClosureIsReached | bywaf/registry/dependencies.py:37-70 | every provider of the closure is reached from the configured entries along the requires relation that the ordering uses |
| DependencyClosure.FsManifestDepClosure | bywaf/registry/dependencies.py:22-76 | closure and order together: fails if and only if a path is invalid or the loaded requirements are cyclic; otherwise the returned manifests are the closure and the returned list orders all of it; a dotted entry or requirement loads the manifest in the directory whose names it spells, an entry without such a directory the one it spells literally, and nothing else is loaded |
| QuoteScan.SegmentsRebuild | bywaf/command/pipeline_syntax.py:12-44 | the raw segments and the separators put together give the input back |
| QuoteScan.CutsExactlyAtLiveSeparators | bywaf/command/pipeline_syntax.py:12-44 | a position is a cut if and only if it holds a separator that is outside quotes and not escaped |
| SplitLaws.PartsSplitToThemselves | bywaf/command/pipeline_syntax.py:12-44 | every returned part, split again, is returned alone |
| SplitLaws.SplitTwiceIsSplitOnce | bywaf/repl/parsing.py:17-54 | splitting at one set of separators and then each part at another equals one scan that cuts at all of them |
| SplitLaws.WholeTextIsOnePart | bywaf/command/pipeline_syntax.py:12-44 | a stripped text without live separators is its own only part |
| Text.StripMeans | bywaf/command/pipeline_syntax.py:23-44 | stripping takes away exactly the whitespace around a text that has none at its ends; every text is such (`StripLeaves`), and `SpaceCharacters` lists the 29 whitespace characters |
| QuoteGrammar.StateMeans | bywaf/command/pipeline_syntax.py:23-44 | the scanner's state after a text tells exactly how the text is written: as whole chunks (plain characters, escaped characters, stretches between equal quotes), with a quote still open, or with a backslash at its end |
| QuoteGrammar.LiveMeans | bywaf/command/pipeline_syntax.py:23-44 | a position is outside quotes and not escaped if and only if whole chunks stand before it |
| QuoteGrammar.QuotedMeans | bywaf/command/pipeline_syntax.py:60-79 | a position is quoted if and only if whole chunks and an unclosed quoted stretch stand before it |
| QuoteGrammar.PipesAreCut | bywaf/command/pipeline_syntax.py:12-44 | a pipeline is cut at exactly the bars that stand after whole chunks |
| QuoteGrammar.CommandsAreCut | bywaf/repl/parsing.py:17-54 | a line is cut at exactly the semicolons, and where asked for the line breaks, that stand after whole chunks |
| QuoteGrammar.PartsMean | bywaf/command/pipeline_syntax.py:23-44 | segment after segment, a blank one gives nothing and any other its text without the whitespace around it |
| QuoteGrammar.BackgroundMeans | bywaf/command/pipeline_syntax.py:47-57 | the background mark is an ampersand at the end, whitespace aside, that whole chunks and whitespace precede; the rest is the line without it and the whitespace before it (`BackgroundIsWritten`: every mark is one of those) |
| QuoteGrammar.NameColonMeans | bywaf/command/pipeline_syntax.py:94-116 | the colon that ends a name, and the bar that ends the search for it, stand after whole chunks; whitespace follows the colon |
| QuoteGrammar.SelectorMeans | bywaf/command/parser/selectors.py:86-107 | `key=` is found exactly where it stands after whole chunks at the start of a word |
| PipelineSyntax.IsQuotedPosition | bywaf/command/pipeline_syntax.py:60-79 | true if and only if the shared automaton is inside quotes at that position |
| PipelineSyntax.PeelPipelineBackground | bywaf/command/pipeline_syntax.py:47-57 | the flag is set if and only if the line ends in an unquoted `&` after whitespace, and the rest is the line without it |
| PipelineSyntax.SplitPipelineRaw | bywaf/command/pipeline_syntax.py:12-44 | the loop returns the stripped, non-empty segments of the automaton at `|`, after the background mark |
| PipelineSyntax.SplitAtPipes | bywaf/command/pipeline_syntax.py:23-44 | the scanning loop with its slice indices computes the segment-based specification |
| PipelineSyntax.StageResplits | bywaf/command/pipeline_syntax.py:12-44 | a stage goes through the whole splitter unchanged if and only if it does not itself end in a background mark |
| PipelineSyntax.StageWithBackgroundMark | bywaf/command/pipeline_syntax.py:47-57 | a concrete line with such a stage |
| PipelineSyntax.FindPipelineNameColon | bywaf/command/pipeline_syntax.py:94-116 | the first unquoted colon before whitespace, unless an unquoted pipe comes first; none only when there is none before a pipe |
| CommandSequence.SplitCommandSequence | bywaf/repl/parsing.py:17-54 | the character-buffer loop returns the same segments as the shared automaton, cutting at `;` and optionally at newlines |
| CommandSequence.SequenceThenPipes | bywaf/repl/parsing.py:17-54 | splitting a line into commands and each into stages equals one scan of the line |
| CommandSequence.StripInlineComment | bywaf/repl/parsing.py:70-87 | the index loop computes the recursive definition of a line without its comment |
| CommandSequence.StripTwice | bywaf/repl/parsing.py:70-87 | stripping a stripped text again changes nothing if and only if no unquoted backslash-hash occurs before the comment |
| CommentGrammar.CommentIsStripped | bywaf/repl/parsing.py:70-87 | a line made of plain characters, backslash-hashes, quoted stretches and a tail keeps its text with the backslashes gone from before hashes, up to the first other hash; a quote that is not closed keeps the rest |
| CommentGrammar.EveryLineIsRead | bywaf/repl/parsing.py:70-87 | every line is made so |
| ReplDispatch.SequenceReachesHandlers | bywaf/repl/dispatch.py:29-39 | for every line with several commands: each reaches its handler as the splitter returned it if and only if the comment scanner meets no comment and no unquoted backslash-hash in any of them; otherwise exactly the second strip of each is handled |
| ReplDispatch.CommandReachesHandler | bywaf/repl/dispatch.py:29-50 | a single command, from whatever source, reaches its handler exactly as it was handed to the dispatcher if and only if no line break in it is outside quotes and the comment scanner meets no comment and no unquoted backslash-hash |
| ReplDispatch.CommentKeepsNoCuts | bywaf/repl/dispatch.py:32-39 | stripping a command opens no new separator, so a command of a sequence is not split again |
| ReplDispatch.UnchangedIffNoHash | bywaf/repl/parsing.py:70-87 | stripping changes nothing if and only if the scanner meets neither a comment nor an unquoted backslash-hash |
| ReplDispatch.QuoteHidesHash | bywaf/repl/dispatch.py:29-39 | a line without comment and backslash-hash whose second command loses text, because the two scanners disagree on an escaped apostrophe |
| ReplDispatch.EscapedHashIsLost | bywaf/repl/dispatch.py:29-39 | a sequence that loses an escaped hash, and the single command that keeps it |
| Scripts.ScriptCommands | bywaf/repl/scripts.py:85-109 | the loop with its buffer lists, for every script, the commands of its logical lines in order, each with the number of the first physical line: a logical line is a non-blank line and what follows it as long as lines are continued, the end of the file included |
| ScriptTexts.ContinuationMeans | bywaf/repl/parsing.py:57-67 | a line goes on if and only if it ends, whitespace aside, in an odd number of backslashes, and then contributes its text without the last of them |
| ScriptTexts.LogicalLineFirst | bywaf/repl/scripts.py:85-109 | lines that go on and the one after them are joined by line breaks, stripped and cut at semicolons, and their commands carry the number of the first line; the lines after them are read on their own |
| ScriptTexts.BlankLineFirst | bywaf/repl/scripts.py:92-93 | a blank line at the start of a script only counts as a line |
| Scripts.ScriptCommandReachesHandler | bywaf/repl/scripts.py:60-109 | for every script and every command of it: the second strip and split leave it as the script lists it if and only if no line break in it is outside quotes and the comment scanner meets no comment and no unquoted backslash-hash |
| Scripts.ScriptLosesEscapedHash | bywaf/repl/scripts.py:91 | a concrete line whose escaped hash is kept at the prompt and starts a comment in a script |
| Scripts.ContinuedCommandReachesHandler | bywaf/repl/parsing.py:57-67 | for every command continued on a second line, at the prompt or in a script: it reaches its handler in one piece if and only if its first line ends inside quotes and no hash is met |
| Scripts.ContinuationRunsTwoCommands | bywaf/repl/dispatch.py:29-39 | every plain command continued on a second line is run as two commands |
| Scripts.ManualExample | USAGE.md:986-994 | the example of the manual is run as two commands |
| Selectors.FindUnquotedTextSelector | bywaf/command/parser/selectors.py:86-107 | the least position where `key=` starts a shell word outside quotes, and none if and only if there is no such position |
| Shlex.QuoteIsRead | bywaf/repl/parsing.py:90-100 | POSIX tokenising a quoted token yields that token, for every text |
| ShellWords.SplitMeans | bywaf/command/parser/__init__.py:117-117 | a text splits into some words if and only if it is written from them: runs of plain characters, escaped characters, single-quoted and double-quoted stretches, with the escapes of the latter, and blanks between words |
| ShellWords.SplitFails | bywaf/command/parser/__init__.py:117-117 | it fails if and only if it ends inside quotes, or with a backslash that escapes nothing, and says which |
| ShellWords.QuoteWrites | bywaf/repl/parsing.py:90-100 | a token of letters, digits and ten other characters is written as it is, any other in single quotes with its apostrophes in double quotes |
| Remainder.TokensAreSpaced | bywaf/repl/parsing.py:90-100 | the quoted tokens stand one blank apart |
| Remainder.SplitJoinQuoted | bywaf/repl/parsing.py:90-100 | POSIX tokenising the rebuilt text returns the argv, for every argv |
| Remainder.RemainderRoundTrip | bywaf/repl/parsing.py:90-100 | for every argv of two or more tokens: the rebuilt text tokenises to the argv, and it is one element of a sequence and one foreground stage if and only if, with the scanner state carried from token to token, no separator inside a token is met live |
| Remainder.QuotedLineIsRun | bywaf/repl/parsing.py:90-100 | a line that is quoted as one word is run as that line, and no word at all is refused |
| Remainder.JoinQuotedUncut | bywaf/repl/parsing.py:90-100 | the scanners meet a live separator in the rebuilt text if and only if they meet one inside a token |
| Remainder.NoBackslashStaysWhole | bywaf/repl/parsing.py:90-100 | an argv without backslashes is always one element and one stage |
| Remainder.TrailingBackslashCuts | bywaf/repl/parsing.py:90-100 | a concrete argv with a backslash whose rebuilt text is cut into two commands |
| Remainder.TrailingBackslashAlone | bywaf/repl/parsing.py:90-100 | a concrete argv with a backslash that stays whole |
| Variables.ParseReference | bywaf/command/parser/variables.py:130-148 | exactly when a reference is malformed, absent or present, and its name: up to the first closing brace, or the longest run of name characters |
| References.PlainReference | bywaf/command/parser/variables.py:130-148 | a dollar sign refers to the longest run of a letter or underscore and then letters, digits and underscores that follows it |
| References.NoReference | bywaf/command/parser/variables.py:130-143 | without a name or a brace behind it, it refers to nothing |
| References.BracedReference | bywaf/command/parser/variables.py:130-141 | braces hold any name up to the first closing one; an empty name is an error |
| References.OpenReference | bywaf/command/parser/variables.py:130-141 | braces that are not closed are an error |
| Variables.ExpansionScan.ConsumeVariableReference | bywaf/command/parser/variables.py:105-127 | a reference adds its value, escaped inside double quotes, and its resolved name; a bare dollar sign is copied; an error leaves the scan as it was |
| Variables.ExpansionScan.ConsumeScanChar | bywaf/command/parser/variables.py:44-66 | one turn keeps the outcome of the whole pass and moves forward |
| Variables.ExpandVariablesInText | bywaf/command/parser/variables.py:29-41 | the scan with its mutable state computes the recursive expansion; audited names are listed once each |
| References.ReferenceExpands | bywaf/command/parser/variables.py:105-160 | a reference whose name has neither slash nor dot gives the value and the name of the first of these that the store holds: the name itself, the commandlet's, the global one; any other name only its own; it fails if and only if the store holds none |
| References.ExpansionAudits | bywaf/command/parser/variables.py:105-160 | over a whole text: the audited names are, in order, those of the first candidates held for the references that the scan meets, and expansion fails if and only if one of them has none |
| References.ExpansionDependsOnFirst | bywaf/command/parser/variables.py:151-160 | two stores that agree on the candidates up to the first one present give every text the same expansion |
| References.OtherVariablesDoNotMatter | bywaf/command/parser/variables.py:151-160 | changing an entry that is no candidate of a reference in the text changes nothing |
| References.TemplateReference | bywaf/command/parser/variables.py:151-160 | the value of a reference in a template, by the same candidates |
| References.TemplateResolves | bywaf/command/parser/variables.py:151-160 | a template's reference resolves if and only if the store holds one of its candidates |
| Templates.ExpandThenSplit | bywaf/command/parser/variables.py:29-66 | for every stage of bare words and double-quoted templates in which no reference follows an apostrophe: expansion succeeds if and only if every reference resolves; POSIX-splitting the result then gives exactly the words with raw values in place, one word each, and the names are those of the references in order |
| TemplateLimits.ValuesArriveWholeExactly | bywaf/command/parser/variables.py:29-66 | for every stage, apostrophes in literals included: all values of all stores arrive whole if and only if no reference follows an apostrophe anywhere in the stage |
| Templates.StageFits | bywaf/command/parser/variables.py:52-66 | after any number of words the scanner's quotes are the real ones as long as no apostrophe was met, and then single- or double-quoted between templates; no reference is copied unless it follows an apostrophe |
| Templates.PiecesFit | bywaf/command/parser/variables.py:52-66 | inside a template the scanner is double-quoted before the first apostrophe, and single-quoted or unquoted after it |
| Templates.EscapedValueIsRead | bywaf/command/parser/variables.py:163-165 | inside double quotes the escaped value is read back as the value, whatever it contains |
| TemplateLimits.ApostropheSuppressesExpansion | bywaf/command/parser/variables.py:61-63 | after one apostrophe inside double quotes nothing is expanded until the next apostrophe |
| TemplateLimits.SecondApostropheInsertsRaw | bywaf/command/parser/variables.py:61-63 | after two apostrophes a value is inserted raw, so that one with two double quotes around a blank gives two words |
| EventLog.WindowContinues | bywaf/stores/events.py:59-82 | a fetch above a cursor continues the topic's ids exactly where the cursor stands |
| EventLog.WindowAscends | bywaf/stores/events.py:59-82 | fetched ids ascend and lie above the cursor |
| EventLog.WindowTakesAll | bywaf/stores/events.py:59-82 | a fetch that returns fewer ids than its limit returns all that are left |
| EventLog.TopicIdsExact | bywaf/stores/events.py:59-82 | the ids up to n on some topics are exactly those, in strictly increasing order |
| Triggers.ScanFindsFirst | bywaf/triggers.py:49-84 | the pass stops at the first event of its window that matches and has not fired, or nowhere, and has tested exactly the unfired events up to there |
| TriggerRuns.StepKeepsInv | bywaf/triggers.py:31-93 | publish, enable, poll, disable, clean restart and a crash between any two statements keep the invariant, and no durable cursor moves back |
| TriggerRuns.TestedOnceFiredAtMostOnce | bywaf/triggers.py:31-93 | over every run with restarts and crashes: the session cursor agrees with the database, a rule was tested against exactly the topic's events at or below its cursor, each once and in order, and no rule fires twice for an event; tests and firings of a pass that dies before it writes its row are not in these histories |
| TriggerRuns.RecordedOncePerCrash | bywaf/triggers.py:64-80 | over every run, the firings recorded for a rule and an event are at most one more than the passes of the rule that died between the record and the row |
| TriggerRuns.PollFiresLowestMatch | bywaf/triggers.py:49-87 | one poll fires for the lowest pending match in its window and for nothing else |
| TriggerConditions.MatchesUnlessBarred | bywaf/triggers.py:115-132 | a rule matches an event if and only if the event has its capability, shows every expected text, comes from no excluded commandlet, is not the action's own while that is suppressed, and belongs to an active job if the rule asks for one |
| TriggerConditions.FieldShows | bywaf/triggers.py:119-121 | which text a payload field shows: words as they are, numbers in decimal with a sign, `True`, `False`, `None`, and nothing when absent |
| TriggerConditions.FiringsAreWarranted | bywaf/triggers.py:31-93 | over every run with restarts and crashes: no recorded firing is for an event that any of these conditions bars at the pass that recorded it |
| TriggerConditions.PollFiresUnlessBarred | bywaf/triggers.py:49-87 | conversely, one poll fires for the lowest of the next 10000 events on the topic that none of them bars, and if each is barred for none |
| TriggerRuns.LedgerRecordsFirings | bywaf/triggers.py:64-75 | when nobody forges them, the ledger's firing records are exactly the recorded firings, in their order, over every run with crashes |
| TriggerRuns.CrashFiresTwice | bywaf/triggers.py:74-80 | from every state of the invariant: dying between the firing record and the write of the row makes the next poll record a firing for the same event again |
| TriggerRecords.RowsTellOfRuns | bywaf/triggers.py:31-93 | over every run with restarts and crashes: each rule's row holds its last firing, and every rule enabled in the session is marked as enabled |
| TriggerRecords.PollRecords | bywaf/triggers.py:64-75 | a poll records nothing, or one firing whose event names the rule, the event that set it off, its topic and its source |
| TriggerRecords.IdlePollWritesNothing | bywaf/triggers.py:86-93 | a poll without a new event on the topic writes neither row nor event |
| TriggerRecords.EnableTells | bywaf/triggers.py:135-145 | enabling a rule is told once, by name and topic |
| TriggerRecords.DisableTells | bywaf/triggers.py:148-158 | disabling is told once for each enabled rule, in the order of their names |
| TriggerRecords.CrashesAroundPoll | bywaf/triggers.py:49-93 | dying before the firing record is a clean restart, dying after the row is a poll and a clean restart |
| TriggerRecords.CrashesInEnable | bywaf/triggers.py:135-145 | dying before the row of an enabled rule is a clean restart, dying after it only loses the record |
| TriggerRecords.CrashInDisableMarks | bywaf/triggers.py:148-158 | a process that dies while it disables has marked the rules up to some point of their order and told of those before the last; every other row is as before |
| TriggerServices.TriggerService.EnableSessionTrigger | bywaf/triggers.py:135-145 | the in-place enable is the enable step of the run model, and a repeated one changes nothing |
| TriggerServices.TriggerService.DisableSessionTriggers | bywaf/triggers.py:148-158 | the loop over enabled rules is the disable step of the run model |
| TriggerServices.TriggerService.FindMatch | bywaf/triggers.py:49-62 | the loop stops at the first matching event that has not fired and has tested exactly the unfired events up to there |
| TriggerServices.TriggerService.FrameworkTriggerFired | bywaf/triggers.py:31-93 | one polling pass on the mutable store and session is the poll step of the run model, and reports true if and only if it fired |
| Requests.DrainHands | bywaf/framework/requests.py:31-55 | a drain hands over the lowest pending requests in order, as many as the limit allows or up to the first handler that raises, and its cursor ends on the last of them |
| Requests.EachRequestHandledOnce | bywaf/framework/requests.py:31-55 | over any number of drains with handlers that publish or raise: strictly increasing ids, and exactly the requests above the start and up to the cursor |
| Requests.DrainMakesProgress | bywaf/framework/requests.py:31-55 | the lowest waiting request is handed over by the next drain whatever the handlers do |
| Requests.SevenKindsAreHandled | bywaf/framework/requests.py:31-55 | over any number of drains the requests handed over are exactly those of the seven topics |
| Requests.DrainIsLimited | bywaf/framework/requests.py:38-44 | one drain hands over a thousand at most |
| Requests.DrainEmptiesQueue | bywaf/framework/requests.py:38-55 | when fewer wait and no handler raises, none is left |
| Requests.HandledSetIsRedundant | bywaf/framework/requests.py:50-54 | an interpreter that forgets its handled set before every step has the same ledger, cursor and handler calls |
| Requests.Interpreter.ProcessFrameworkRequests | bywaf/framework/requests.py:31-55 | the loop on the interpreter's fields is the drain step; it raises if and only if some handler in its window does |
| RuntimeEntities.InsertNeverCollides | bywaf/db/runtime.py:238-245 | under every interleaving the insert meets neither an existing serial nor an existing local id |
| RuntimeEntities.NextKeepsLock | bywaf/db/runtime.py:220-253 | at most one process is inside its transaction, and it knows what its reads told it |
| RuntimeEntities.SameIdForEveryCaller | bywaf/db/runtime.py:208-253 | under every interleaving of any number of processes, with failures: per type the ids are exactly 1 to n, one for each serial; callers get equal ids if and only if they asked for the same serial, and those ids are in the table |
| RuntimeEntities.IdsNeverChange | bywaf/db/runtime.py:208-253 | an id once committed is in every later table |
| RuntimeEntities.InterleavingsAreSerial | bywaf/db/runtime.py:208-253 | every interleaving leaves a table that some sequence of whole allocations, one after the other, leaves |
| RuntimeEntities.HolderFinishes | bywaf/db/runtime.py:227-250 | whoever holds the write lock is at most four statements from releasing it and one more from returning its id, with the table one allocation further |
| RuntimeEntities.Undisturbed | bywaf/db/runtime.py:208-253 | left alone, a call allocates and returns the id of its serial |
| RuntimeEntities.EntityTable.NextId | bywaf/db/runtime.py:236-237 | one more than the largest id of the type |
| RuntimeEntities.EntityTable.EnsureRuntimeEntity | bywaf/db/runtime.py:208-253 | the statements in place perform one allocation and return the id that is in the table |
| RuntimeEntities.IdGivesSerialBack | bywaf/db/runtime.py:152-166 | a decimal id, with any leading zeros, resolves to its serial |
| RuntimeEntities.ReturnedIdsResolve | bywaf/db/runtime.py:138-180 | over every run, an id that any caller was ever given resolves to the serial it was given for, and is listed as its alias |
| RuntimeEntities.OtherTextResolves | bywaf/db/runtime.py:152-180 | a text that is no local id in use resolves to the only stored serial it matches, to itself if there is none, and is an error if and only if there are several |
| Jobs.StaleIds | bywaf/db/jobs.py:104-120 | the sweep picks exactly the active jobs without a living process |
| Jobs.SweepTakes | bywaf/db/jobs.py:104-120 | a sweep takes a job if and only if its status is one of the six active ones and it has no living process |
| Jobs.StatusTexts | bywaf/runner/jobs.py:34-68 | the statuses that the statements write, by their texts |
| Jobs.ExceptionFails | bywaf/runner/background.py:68-87 | an exception in a worker that has claimed and told so is told, and the job fails; anywhere else it only ends the process (`ExceptionEnds`) |
| Jobs.CommandsWrite | bywaf/db/jobs.py:54-86 | setting a pid or a status writes that of the one row and nothing else |
| Jobs.TrackTells | bywaf/runner/jobs.py:34-68 | the phase automaton of a job describes its events exactly |
| JobRuns.OneClaimAndEventsInOrder | bywaf/runner/jobs.py:34-68 | under every interleaving of creators, workers, sweeps, cancellations and pid updates, with exceptions and deaths: at most one claim of a job succeeds, and its events are requested, claimed, started, then at most one of failed and finished, a finish only after a start |
| JobRuns.MovedOffIsNeverStarted | bywaf/db/jobs.py:59-72 | a job moved off `queued` before a claim is never claimed or started, however the run goes on |
| JobRuns.FinishedJobMarkedStale | bywaf/db/jobs.py:104-125 | a run in which a finished job ends up marked stale, because the sweep's write is unconditional |
| JobRuns.WorkerFinishes | bywaf/runner/background.py:43-87 | an undisturbed worker takes a claimable job through claimed and started to finished |
| JobStatuses.TerminalStaysExactly | bywaf/db/jobs.py:74-86 | a terminal status stays through every continuation that does not set it by command if and only if no worker is on its way to another status and no sweep has already picked the job |
| JobStatuses.SettledIsKept | bywaf/db/jobs.py:74-86 | such a job stays so, and keeps its status, over every such continuation |
| JobLifecycles.JobStore.ClaimJob | bywaf/db/jobs.py:59-72 | succeeds if and only if the row is queued, and then marks it claimed by the process; otherwise changes nothing |
| JobLifecycles.JobStore.MarkStaleJobs | bywaf/db/jobs.py:104-125 | marks exactly the active jobs without a living process, leaves the others alone, and returns how many |
| JobLifecycles.JobStore.Create | bywaf/runner/jobs.py:34-45 | performs the creator's two statements of the process model |
| JobLifecycles.JobStore.Claim | bywaf/runner/jobs.py:47-53 | performs a worker's first two statements, and reports whether it goes on |
| JobLifecycles.JobStore.Start | bywaf/runner/jobs.py:55-58 | performs the two statements of a starting worker |
| JobLifecycles.JobStore.Fail | bywaf/runner/jobs.py:60-63 | performs the two statements of a failing worker |
| JobLifecycles.JobStore.Finish | bywaf/runner/jobs.py:65-68 | performs the two statements of a succeeding worker |
| JobLifecycles.WorkerRunMeans | bywaf/runner/background.py:60-87 | a worker on its own is denied, or claims the job and takes it to finished or failed under its own pid |
| JobLifecycles.JobStore.RunBackgroundJob | bywaf/runner/background.py:60-87 | the worker's entry point does what the statements of the process model do one after the other |
| TableWidths.Roomiest | bywaf/runtime/table_widths.py:46-50 | the first of the columns with the most room above their minimum, and none if and only if none has room |
| TableWidths.RoomRemains | bywaf/runtime/table_widths.py:43-48 | while the minimums fit and the columns do not, some column has room: the loop's `break` is unreachable |
| TableWidths.TrimLevels | bywaf/runtime/table_widths.py:42-52 | trimming terminates with every width between minimum and natural, the total exactly min(natural total, budget), and no column with more room than a trimmed one but for one character, and that only to its right |
| TableWidths.LevelIsUnique | bywaf/runtime/table_widths.py:42-52 | these properties leave one allocation only |
| TableWidths.LevelIsMinimax | bywaf/runtime/table_widths.py:42-52 | no other allocation with that total, up to the natural widths, has a smaller largest room |
| TableWidths.WidestFirst | bywaf/runtime/table_widths.py:34-34 | a stable sort of the columns by width, widest first, each once |
| TableWidths.CompressIsGreedy | bywaf/runtime/table_widths.py:28-41 | when the minimums do not fit: every column gets at least 1, the total is exactly max(column count, budget), and a column grows only when every wider one is full |
| TableWidths.CompressedIsUnique | bywaf/runtime/table_widths.py:28-41 | these properties leave one allocation only |
| TableWidths.ShrunkTotal | bywaf/runtime/table_widths.py:20-52 | the exact total in both cases, and that it fits the display with separators whenever the display has 3n-2 characters for n columns |
| TableWidths.CompressWidths | bywaf/runtime/table_widths.py:32-41 | the loop over columns with its early exit computes the greedy filling |
| TableWidths.TrimWidths | bywaf/runtime/table_widths.py:42-52 | the trimming loop computes the specification of trimming |
| TableWidths.ShrinkTableWidths | bywaf/runtime/table_widths.py:20-52 | the function on lists computes the specification in both branches |
| WidthLaws.ShrunkKeepsLow | bywaf/runtime/table_widths.py:20-52 | with the least width of a column written out (its natural width, or the greater of 3 and its heading if that is less): if these fit the display no column gets less, the room above them is levelled and the total exact |
| WidthLaws.ShrunkFillsLow | bywaf/runtime/table_widths.py:20-41 | if they do not fit, the columns are filled up to them, the widest first, with an exact total |
| WidthLaws.HeadingsAreWhole | bywaf/runtime/table_widths.py:20-52 | so no heading of a table is cut as long as they fit |
| Tables.TruncateCell | bywaf/runtime/table_widths.py:55-61 | a fitting cell unchanged; a longer one cut to exactly the width, its last character the ellipsis, or to its first character when the width is 1 |
| Tables.NaturalWidths | bywaf/runtime/tables.py:69-80 | each column is as wide as the longest of its heading and cells |
| Tables.LinesHaveSameLength | bywaf/runtime/tables.py:40-57 | heading, ruler and body lines all have the same length: the widths and two blanks between columns |
| Tables.LinesFitDisplay | bywaf/runtime/tables.py:40-57 | no line is longer than `max_width` whenever `max_width` is at least 3n-2 for n columns |
| Tables.ColumnsAlign | bywaf/runtime/tables.py:141-165 | in every body line the cell of a column stands at the same offset, cut and padded to the column |
| Tables.RenderedTextFits | bywaf/runtime/tables.py:20-57 | the rendered text, split at line breaks, gives the lines back, and none is longer than the display, when no cell contains a line break |
| Tables.WideDisplayChangesNothing | bywaf/runtime/tables.py:40-57 | a display in which the natural lines fit gives the same lines as no limit |
| Tables.RenderingFails | bywaf/runtime/tables.py:36-80 | a table without rows is empty, and one with a row of another length than its headings fails |
| Tables.LinesAreShown | bywaf/runtime/tables.py:40-57 | every line character by character: headings, a rule of dashes, and rows, each cell followed by blanks or cut with an ellipsis, and two blanks between columns |
| Ipv4.ParseAddressIs | bywaf/policy.py:169-175 | an address has exactly one text that parses to it |
| Ipv4.HoldsInterval | bywaf/policy.py:131-136 | a block holds exactly the interval from its address to its broadcast address |
| Ipv4.OverlapsMeans | bywaf/policy.py:124-125 | the overlap test on end points means a shared address |
| Ipv4.SubnetOfMeans | bywaf/policy.py:126-127 | the subnet test on end points means inclusion |
| Ipv4.NestedOrDisjoint | bywaf/policy.py:124-127 | two blocks are nested or disjoint: the smaller one overlaps the other if and only if it lies in it |
| Ipv4.CidrRoundTrip | bywaf/policy.py:131-136 | reading an address and a prefix length gives the aligned block around the address |
| Ipv4Texts.AddressIsWritten | bywaf/policy.py:169-175 | an address is written as its four bytes in decimal, the highest first |
| Ipv4Texts.PrefixTexts | bywaf/policy.py:131-136 | a prefix length is written as a number up to 32, a network mask, or a host mask that is no network mask |
| Ipv4Texts.BlockTexts | bywaf/policy.py:131-136 | a block is written as an address, or an address, a slash and a prefix length, and nothing else |
| Ipv4Texts.BlockHolds | bywaf/policy.py:131-136 | the block around an address holds the addresses with the same quotient by the power of two its prefix leaves |
| Ipv4Ranges.ParseSpans | bywaf/utils.py:77-79 | succeeds if and only if every part is a valid octet or ascending octet range |
| Ipv4Ranges.ExpansionIsProduct | bywaf/utils.py:72-80 | the expansion lists, as address texts in strictly increasing 32-bit order, exactly the addresses whose octets lie in the ranges, and is never empty |
| Ipv4Ranges.ExpansionMembers | bywaf/utils.py:72-80 | a text is in the expansion if and only if it is the text of an address in the ranges, and none is there twice |
| Ipv4Ranges.BlockCandidates | bywaf/utils.py:55-63 | the candidates of a block are its addresses, without the first and last of a block of four or more |
| RangeTexts.RangeIsWritten | bywaf/utils.py:66-69 | a text is a range expression if and only if it is four parts without dots, joined by dots, and some part has a dash (`RangesAreWritten`) |
| RangeTexts.PartMeans | bywaf/utils.py:83-102 | a part is read exactly as it is written: decimal digits for a number up to 255, or two such with a dash between them, not descending |
| RangeTexts.RangeCandidates | bywaf/utils.py:55-102 | the candidates of a range expression are the addresses each of whose bytes lies in its part, if every part is one of those; otherwise it is an error |
| RangeTexts.OtherCandidates | bywaf/utils.py:59-62 | a text that is neither a range nor a block stands for itself |
| NetworkPolicy.NetworkDecision | bywaf/policy.py:115-128 | a block passes if and only if it shares no address with a denied block and lies as a whole in one allowed block, if there is an allow list |
| NetworkPolicy.AddressDecision | bywaf/policy.py:93-98 | an address passes if and only if it is outside all denied blocks and, with an allow list, in an allowed one |
| NetworkPolicy.KeptIsPermitted | bywaf/policy.py:65-90 | every address a kept target stands for is permitted, for addresses, blocks and ranges |
| PolicyBlocks.SplitsMeans | bywaf/policy.py:115-128 | a block is split, that is dropped with a permitted address in it, if and only if it does not pass and one of these lies in it and is permitted: its own start, the address after a denied block, the start of an allowed one |
| PolicyBlocks.NothingInsideNothingSplit | bywaf/policy.py:115-128 | a block that has no denied or allowed block strictly inside it is never split |
| NetworkPolicy.KeptIsExactlyThePermitted | bywaf/policy.py:65-90 | for targets that are not split blocks the kept list stands for exactly the permitted addresses of the given list |
| NetworkPolicy.AddressesAndRangesAreExact | bywaf/policy.py:65-90 | for every list of addresses and ranges the kept list stands for exactly the permitted addresses, whether or not a range stays compact |
| NetworkPolicy.SplitBlockLosesAddresses | bywaf/policy.py:83-90 | for a single address or block the kept list stands for exactly its permitted addresses if and only if the policy does not split it |
| NetworkPolicy.SplitExample | bywaf/policy.py:83-90 | with 0.0.0.1/32 denied the target 0.0.0.0/30 is dropped together with the permitted address 0.0.0.2 |
| NetworkPolicy.KeptNameIsPermitted | bywaf/policy.py:101-112 | a name is kept if and only if all it resolves to is permitted or, without an allow list, it does not resolve |
| NetworkPolicy.FilteringAgainChangesNothing | bywaf/policy.py:65-90 | filtering the kept list keeps it as it is, with no warning |
| NetworkPolicy.FailsOnBadRange | bywaf/policy.py:72-76 | filtering fails if and only if some target is a range expression that does not expand |
| NetworkPolicy.RangeIsKept | bywaf/policy.py:72-82 | a range is kept as written if all its addresses are permitted; otherwise it is treated as the list of its addresses, of which exactly the permitted ones are kept |
| NetworkPolicy.BlockWarning | bywaf/policy.py:115-128 | an address or block that shares an address with a denied block is reported as denied; one outside the allowed blocks as outside the scope |
| NetworkPolicy.NameWarning | bywaf/policy.py:101-112 | a name is reported for its first address that is not permitted |
| NetworkPolicy.UnresolvedWarning | bywaf/policy.py:101-106 | a name that does not resolve is reported if and only if there is an allow list |
| NetworkPolicy.OneAfterTheOther | bywaf/policy.py:65-90 | targets are kept and reported in order; a kept one is not repeated |
| NetworkPolicy.ApplyNetworkPolicy | bywaf/policy.py:65-90 | the loop with its recursive call on expanded ranges computes the specification, errors included |
| EventFilters.SelectorMatchesExpansion | bywaf/event/filters.py:186-214 | on a range expression that expands, the event selector matches exactly the expansion if the dash is in the last octet only and the other octets are written canonically, and matches nothing otherwise, for every value text |
| EventFilters.ReadingsAgreeExactly | bywaf/event/filters.py:186-214 | so selector and expansion agree on all values if and only if the expression has that form |
| EventFilters.BlockPatternMatches | bywaf/event/filters.py:167-183 | a block pattern matches exactly the addresses of the block, and its own text |
| SelectorTexts.PatternMatches | bywaf/event/filters.py:167-214 | for every pattern: it matches its own text, the addresses with its first three octets whose last lies in its range, and those of its block; nothing else |
| SelectorTexts.BoundTexts | bywaf/event/filters.py:195-201 | a bound is a number with or without a sign, digits grouped by single underscores, between whitespace |
| EventFilters.ParseSelectorExpression | bywaf/event/filters.py:126-148 | the loop computes the specification, errors included; the check for an expression without values never fails |
| SelectorTexts.ExpressionFails | bywaf/event/filters.py:126-148 | an expression is refused if and only if some term between commas is blank, or blank behind its exclamation mark; the error tells of the first one (`FirstRefusal`) |
| EventFilters.ExpressionRoundTrip | bywaf/event/filters.py:126-148 | reading a written expression gives its wanted and unwanted patterns back in order |
| SelectorTexts.SpacesDoNotMatter | bywaf/event/filters.py:132-145 | whitespace around the terms of an expression, or behind an exclamation mark, changes nothing |
| EventFilters.ExpressionMeans | bywaf/event/filters.py:151-164 | a written expression accepts values if and only if there is a value, some wanted pattern matches one (or none is written) and no unwanted pattern does, whatever the order of its terms |
| Serials.CrockfordBase32 | bywaf/db/support.py:96-102 | the divide-and-reverse loop yields the last `length` Base32 digits |
| Serials.DecodeEncoded | bywaf/db/support.py:96-102 | decoding inverts encoding for every value that fits the width; of any other it gives the value less the digits that do not fit |
| Serials.BodyRange | bywaf/db/support.py:27-29 | 26 digits hold exactly the values below 2^130 |
| Serials.DigitsAre | bywaf/db/support.py:27-27 | the 32 digits in their order |
| Serials.PrefixIsShown | bywaf/db/support.py:105-109 | a prefix loses what surrounds its first and last letter or digit, and its other characters become hyphens |
| Serials.NewSerialIsWritten | bywaf/db/support.py:105-109 | the prefix, a hyphen, and 26 digits that decode to the random value |
| Serials.TextOrderIsNumericOrder | bywaf/db/support.py:96-102 | texts of one width are ordered as their values |
| Serials.SharedPrefix | bywaf/db/support.py:96-102 | two encodings share their first k digits if and only if the values agree after dropping the other digits |
| Serials.TypingAPrefix | bywaf/db/support.py:112-117 | normalising a query gives a prefix of a body if and only if it types the body's first digits, in any case, with I or L for 1 and O for 0 |
| Serials.BareBodyLookup | bywaf/db/support.py:125-133 | with a one-word prefix, a query without a hyphen matches if and only if it types the first digits of the body |
| Serials.PrefixedLookup | bywaf/db/support.py:125-133 | with the prefix typed too, it matches if and only if the prefixes agree up to normalising and the rest types the first digits of the body |
| Serials.TwoWordPrefixHidesBody | bywaf/db/support.py:120-122 | with a hyphen in the prefix a bare query matches if and only if it starts the second word, so the body is out of reach |
| Serials.ResolveSerialMatch | bywaf/db/support.py:136-143 | a serial if and only if it is the only match, nothing if and only if there is none, an error if and only if there are two or more |
| Serials.TypedBodyResolves | bywaf/db/support.py:125-143 | a query that types the first digits of a stored value resolves to its serial if no other stored value shares those digits, and is ambiguous otherwise |
| Serials.NewSerialsAreFound | bywaf/db/support.py:105-143 | every stored serial with a one-word prefix is found by its full body |
| Serials.DifferentSerials | bywaf/db/support.py:105-109 | different values have different serials |

## Left out

- Floating-point numbers, and values that are not data (a type error in the source), in signed configurations; keys
  are texts, and characters are never surrogates.
- The JSON reader takes whole numbers only, as only those are written; fractions and exponents are
  not read.
- The SHA-256 digest over the canonical bytes, signatures, keys and encryption.
- Parsing of plugin manifests and the validation of missing dependencies (bywaf/registry/dependencies.py:72-75); the
  disk is a map from directory to manifest.
- The Unicode tables behind `isalpha` and `isalnum` in variable names: they are parameters, constrained only on ASCII
  punctuation and blanks. `isdigit`, `int` and `upper` are modelled on ASCII only.
- Peeling several selectors off a stage (bywaf/command/parser/selectors.py:110-172) and the final-text prefix value.
- The lookup of the handler and its errors (bywaf/repl/dispatch.py:40-66), and the audit of script commands
  (bywaf/repl/scripts.py:60-79); a script is the list of its lines.
- Handlers that answer `exit` end a sequence early (bywaf/repl/dispatch.py:37-38); the model lists the lines that
  reach handlers as long as none does.
- The action a trigger starts, session services and their shutdown (bywaf/triggers.py:96-112, 188-232); the name of
  the action's commandlet is given with the rule, and only the identifying part of the audit payload is modelled.
- The set of active jobs is read once in a polling pass, where the source reads it for each event.
- One session and one database for triggers and requests: the reset of the request cursor on a project switch
  (bywaf/repl/command/exec.py:68-72) is not modelled, and fetched events always have an id.
- What the request handlers do (bywaf/framework/requests.py:69-223): each may publish anything and may raise.
- SQLite itself: a statement is an atomic step, `BEGIN IMMEDIATE` is one write lock, and the event queries follow the
  contract of bywaf/stores/events.py:59-82. Their code is not part of this model.
- Job serials, command lines and timestamps; whether a process is alive is an arbitrary set at each sweep.
- Styling of tables; a cell that contains a line break would be shown on two lines, and lengths are those of the lines
  before they are joined.
- IPv6, name resolution (an arbitrary function) and the parsing of the policy variables (bywaf/policy.py:28-62).
- Payload paths and sorting of events (bywaf/event/filters.py:35-123, 217-254).
- The random source of serials; a serial is a function of its random value.
- Error texts are part of the model, but only those of variable references, selector terms, shell splitting and the
  network policy are stated by laws of their own.
