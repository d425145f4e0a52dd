# Verified models of AgentStart's algorithms and protocols

The repository holds a Rust daemon, a TypeScript client and a Swift helper. Their hard parts are
small hand-written algorithms and protocols. This project models them in Dafny, one module per source
file or component, and proves what they promise.

- **Text surgery on configuration files.** `TomlSyntax`, `TomlScan`, `TomlLaws`, `Toml` and
  `TomlProofs` model the line scanner, the header and string parsers and the trust upsert, on whole
  texts; `TomlMarks` says what the next reader finds in the result, `TomlPanics` when the upsert
  crashes, and `TomlFile` what a run and the next one do to the file. `CodexTrust` and `CodexTrustFile` model the hook trust blocks and the file around them.
  `Jsonc` models the two passes that turn JSON with comments into JSON, and `JsoncTokens` the tokens
  they leave.
- **Argument lines.** `AgentArguments` models the tokenizers and the quoter of three shells.
- **Calendar.** `Clock` models the date arithmetic next to a calendar written independently.
- **Accessibility snapshots.** `TreeRenderer` models the recursive renderer over a graph that may have
  cycles; `SnapshotCache` models the cache with many keys per entry.
- **Disk usage.** `WorkspaceScan` models the iterative traversal and the row it reports,
  `WorkspaceAnalysis` the rows and summaries of all worktrees, and `SingleFlight` the scan that callers
  share.
- **Protocols.** `Accounts`, `ReverseRegistry`, `ReverseStream`, `DoubleTap` and `WorkerPool` model the
  account subscriptions, the reverse-call registry and streams, the double-tap detector and the worker
  pool. The concurrent ones are state machines: each step is one critical section or one access to
  shared state, and the theorems hold for every sequence of steps.
- **Orders and normal forms.** `Versions` models the comparison of application versions, `RuntimePath`
  the key under which paths are compared.

Code that works step by step is a method or a class here, proved equal to a function; the properties
are lemmas about those functions. `Text` holds the string operations of the standard libraries.

Some promises turned out to hold only under a condition. These are proved with the exact condition:

- The TOML upsert crashes exactly when, in the rows it reads, an escape inside a basic string stands
  before a character outside ASCII (`TomlPanics.CrashExample`); the promises below are about the texts
  on which it returns.
- The upsert is effective, as the result is read back, unless a block is appended to a text that ends
  inside a string or an array. It is idempotent unless that happens or a second byte order mark follows
  the first. An unclosed bracket alone makes every upsert append one more block
  (`TomlProofs.UnclosedArrayGrows`).
- The upsert changes the trust of another project when the text ends inside a multi-line literal
  string, the appended header closes it, and the other project's block is the last one open
  (`TomlMarks.LeakExample`).
- The upsert removes one byte order mark, and the next reader another one. So a second mark in front of
  the header of a project hides its block from the upsert but not from that reader: then that block
  decides both promises for its project (`TomlMarks.MarkExample`).
- A second run leaves the configuration file alone exactly if the text read by the first one begins
  with at most two byte order marks and, as the next reader finds it, trusts the project by the line
  the upsert writes (`TomlFile.NextRunWrites` shows a file for which it does not).
- JSON with comments keeps its tokens, unless two words have nothing between them but block comments
  without a line break (`JsoncTokens.CommentDoesNotSeparate`): the code joins these words.
- Quoting for PowerShell loses backticks, which the tokenizer consumes inside quotes too.
- Installing the hook trust into a file is a fixed point, unless the file begins with two byte order
  marks and the second one hides the header of a trust block; the next reader then finds two blocks
  with that key (`CodexTrustFile.HidingFileChangesAgain`).
- Versions that do not parse equal every version, so comparing is transitive on a set that holds one
  only if all its versions are equal.
- A version with a pre-release identifier of digits beyond every double, of 310 digits for example,
  does not equal itself: the code subtracts infinity from infinity (`Versions.HugeIsUnequal`).
- The two names of the WSL server lead to the same key only when something follows them.
- A trailing slash matters to the empty path, the root and a bare drive only.
- The worker pool makes no call at all when its limit is not a number.
- A dropped registration takes another live connection with it when both have the same identifier and
  their numbers differ by a multiple of 2^64 - 1.
- A snapshot just remembered is found, unless it has expired between the two readings of the clock and
  nothing in front of it holds it back.
- No expired snapshot remains after pruning, unless one among the last 32 stands behind one that is
  not expired, which takes a clock that went back (`SnapshotCache.ClockWentBack`).

## Model

| member | source | states |
|---|---|---|
| TomlSyntax.EscapedBodyParses | apps/daemon/src/agent_trust/toml_syntax.rs:92-126 | escaping a text and parsing it back gives the text, whatever follows the closing quote, and the table-header test stops at the same place |
| TomlSyntax.ProjectHeaderParses | apps/daemon/src/agent_trust/toml_syntax.rs:1-15 | the header rendered for any path is one line, a table header, and parses back to that path |
| TomlSyntax.TrustLineIsTrusted | apps/daemon/src/agent_trust/toml_syntax.rs:17-33 | the rendered trust line is a trust assignment of the value `trusted` |
| TomlScan.ScanLineFrom | apps/daemon/src/agent_trust/toml_scan.rs:26-73 | the index loop of the scanner computes the recursive scan, the crash at a backslash before a character outside ASCII included |
| TomlScan.SkipQuotedAt | apps/daemon/src/agent_trust/toml_scan.rs:104-115 | the loop over a quoted string stops exactly after its closing quote, or at the end |
| TomlScan.NextLine | apps/daemon/src/agent_trust/toml_scan.rs:76-102 | one step of the line iterator gives the bounds of the first row of the rest of the text |
| TomlScan.RowsAreDocument | apps/daemon/src/agent_trust/toml_scan.rs:76-102 | splitting a text into rows loses nothing: joined they are the text again |
| TomlScan.DocumentRows | apps/daemon/src/agent_trust/toml_scan.rs:76-102 | rows that are joined and split again are the same rows |
| TomlLaws.HeaderStaysStructural | apps/daemon/src/agent_trust/toml_scan.rs:22-73 | a line that parses as a project header leaves the scanner where it began, outside strings and arrays |
| TomlLaws.HeaderKeepsDepth | apps/daemon/src/agent_trust/toml_scan.rs:26-73 | nor does it close an array, at whatever depth it stands |
| TomlLaws.HeaderStaysBasic | apps/daemon/src/agent_trust/toml_scan.rs:26-73 | the header rendered for any path does not close a multi-line basic string, whatever the path holds |
| TomlLaws.TrustStaysStructural | apps/daemon/src/agent_trust/toml_scan.rs:22-73 | so does a trust assignment, which is never a table header |
| TomlLaws.ScanCr | apps/daemon/src/agent_trust/toml_scan.rs:26-73 | a carriage return at the end of a line changes nothing for the scanner, so both line endings are scanned alike |
| Toml.FindProjectBlock | apps/daemon/src/agent_trust/toml.rs:46-63 | the loop finds the offsets of the first structural block of the project, or that there is none |
| Toml.FindTrustLine | apps/daemon/src/agent_trust/toml.rs:65-74 | the loop finds the first structural trust assignment of a block, or that there is none |
| Toml.UpsertProjectTrust | apps/daemon/src/agent_trust/toml.rs:6-44 | the string surgery is the edit of rows: replace, insert or append |
| TomlMarks.UpsertIsEffective | apps/daemon/src/agent_trust/toml.rs:6-44 | read back, the first structural trust assignment of the project is the trusted one, exactly unless a block was appended where the text does not end structural; if a second mark hid a header of the project, exactly if the block behind that mark is trusted |
| TomlMarks.MarkExample | apps/daemon/src/agent_trust/toml.rs:6-44 | for every project there is a text that ends structural and that after the upsert, for this or any other project, is read as not trusting it |
| TomlProofs.UpsertIsIdempotent | apps/daemon/src/agent_trust/toml.rs:6-44 | a second upsert changes nothing, exactly unless two byte order marks lead the text or a block was appended where the text does not end structural |
| TomlProofs.UnclosedArrayGrows | apps/daemon/src/agent_trust/toml.rs:29-43 | from a text of one unclosed bracket, each of any number of upserts returns and makes the text longer |
| TomlProofs.EditFrame | apps/daemon/src/agent_trust/toml.rs:13-28 | replacing or inserting a trust line leaves the trust of every other project as it was |
| TomlProofs.AppendFrame | apps/daemon/src/agent_trust/toml.rs:29-43 | appending a block does so exactly unless the block closes an open string that swallows it for another project |
| TomlMarks.UpsertFrame | apps/daemon/src/agent_trust/toml.rs:6-44 | read back, the trust of every other project is as it was, exactly unless the appended block leaks into its block; if a second mark hid a header of that project, exactly if the block behind that mark says what was read before |
| TomlProofs.LeakIsLiteral | apps/daemon/src/agent_trust/toml.rs:29-43 | such a leak needs a text that ends inside a multi-line literal string |
| TomlMarks.LeakExample | apps/daemon/src/agent_trust/toml.rs:29-43 | there is a text and a path for which the upsert returns and the trust of another project, as it is read, changes |
| TomlPanics.LineReads | apps/daemon/src/agent_trust/toml_scan.rs:26-73 | the scan of a line crashes exactly when an escape in a basic string, found by a reader that steps over characters, stands before a character outside ASCII, and otherwise leaves the same quotes open |
| TomlPanics.UpsertCrashes | apps/daemon/src/agent_trust/toml.rs:6-44 | the upsert crashes exactly when there is such an escape in the rows that the search for the project's block reads |
| TomlPanics.EditsReturn | apps/daemon/src/agent_trust/toml.rs:6-44 | if every backslash of the text stands before an ASCII character, the upsert returns for every project |
| TomlPanics.CrashExample | apps/daemon/src/agent_trust/toml_scan.rs:104-115 | there is a text of three characters on which every upsert crashes |
| TomlPanics.HeaderNeverCrashes | apps/daemon/src/agent_trust/toml_scan.rs:26-73 | the header rendered for any path does not crash the scanner, whatever string or array is open when it begins |
| TomlFile.SecondRunWritesNothing | apps/daemon/src/agent_trust/codex.rs:25-66 | a second run leaves the file alone exactly if the text read by the first has at most two byte order marks in front and a trusted block for the next reader: where a second mark hid a header of the project, by the trust line of the block behind it, otherwise unless a block was appended where the text does not end structural |
| TomlFile.SecondRunReturns | apps/daemon/src/agent_trust/codex.rs:25-40 | a run that has not crashed is followed by one that does not crash |
| TomlFile.NextRunWrites | apps/daemon/src/agent_trust/codex.rs:25-66 | for every project there is a file that both runs write |
| Clock.CivilDateIsGregorian | apps/daemon/src/agent_trust/clock.rs:19-32 | day 0 is 1970-01-01, every day is a valid date, and the next day is its calendar successor (RFC 3339, section 5.7 and appendix C) |
| Clock.CivilDateInverse | apps/daemon/src/agent_trust/clock.rs:19-32 | the date of a day and the day of a date, counted year by year and month by month, undo each other |
| Clock.DayNumberMonotone | apps/daemon/src/agent_trust/clock.rs:19-32 | an earlier date has a smaller day number |
| Clock.IsoFieldsExact | apps/daemon/src/agent_trust/clock.rs:3-17 | the fields are in range and give the milliseconds back, exactly when the seconds fit 64 bits |
| AgentArguments.TokenizePosix | apps/daemon/src/agent_arguments.rs:42-76 | the loop over characters computes the recursive tokens, none when a quote stays open |
| AgentArguments.TokenizeWindows | apps/daemon/src/agent_arguments.rs:78-125 | so does the loop for Cmd and PowerShell |
| AgentArguments.Quote | apps/daemon/src/agent_arguments.rs:134-154 | the quoter's arms, the loop of the Cmd arm included, give the quoted word |
| AgentArguments.QuoteThenTokenize | apps/daemon/src/agent_arguments.rs:34-154 | any list of words, empty ones included, quoted and joined with any white space is tokenized back to the list, exactly unless a word holds a backtick under PowerShell |
| AgentArguments.BackticksHalved | apps/daemon/src/agent_arguments.rs:78-125 | every backtick in a PowerShell token costs two in the line |
| Jsonc.StripJsonComments | apps/daemon/src/agent_status_hooks/config.rs:37-86 | the loops with their flags remove the comments as the lexer modes say |
| Jsonc.StripTrailingCommas | apps/daemon/src/agent_status_hooks/config.rs:88-121 | the loop with its look-ahead removes the commas before a closing brace or bracket outside strings |
| Jsonc.CommentsGoneForGood | apps/daemon/src/agent_status_hooks/config.rs:37-86 | removing comments twice is removing them once, for every text and from every lexer mode |
| Jsonc.CommentsKeepNewlines | apps/daemon/src/agent_status_hooks/config.rs:37-86 | no line break is lost, those inside comments included |
| Jsonc.NormalisationKeepsPieces | apps/daemon/src/agent_status_hooks/config.rs:37-121 | on a text written as a list of strings, words, white space and comments both passes give the text of the list in which each comment is its line breaks and each comma before a closing piece is gone |
| JsoncTokens.PassDeletesComments | apps/daemon/src/agent_status_hooks/config.rs:37-86 | for every text and lexer mode the first pass leaves exactly what a reader sees outside comments, with their line breaks |
| JsoncTokens.NormalisationKeepsTokens | apps/daemon/src/agent_status_hooks/config.rs:37-121 | on every text both passes leave its tokens without exactly the commas whose next token closes a brace or bracket, if and only if no two words have nothing between them but block comments without a line break (RFC 8259, section 2) |
| JsoncTokens.CommentDoesNotSeparate | apps/daemon/src/agent_status_hooks/config.rs:69-82 | a block comment between two words joins them, so the tokens change |
| CodexTrust.RemoveEntries | apps/daemon/src/agent_status_hooks/codex_trust.rs:121-138 | the nested loops drop exactly the blocks with one of the keys, each up to the next table header |
| CodexTrust.Install | apps/daemon/src/agent_status_hooks/codex_trust.rs:29-50 | the loop over trusts appends the blocks, a blank line before each |
| CodexTrust.InstallIsFixed | apps/daemon/src/agent_status_hooks/codex_trust.rs:21-67 | installing twice is installing once, and removing after an install gives the plain removal and the line breaks that separated it from the blocks |
| CodexTrust.RemoveIsIdempotent | apps/daemon/src/agent_status_hooks/codex_trust.rs:121-138 | removing twice is removing once, and no line with one of the keys stays |
| CodexTrust.OneBlockPerKey | apps/daemon/src/agent_status_hooks/codex_trust.rs:36-50 | in the text as an install writes it each of the keys heads exactly one line |
| CodexTrust.TrustsAreDistinct | apps/daemon/src/agent_status_hooks/codex_trust.rs:89-105 | the eight keys of a hook file are different, so the lemma above applies to them |
| CodexTrustFile.InstallFileIsFixed | apps/daemon/src/agent_status_hooks/codex_trust.rs:21-78 | a second install leaves the file as it is, exactly unless a second byte order mark hid the header of a trust block from an install that wrote |
| CodexTrustFile.OneBlockPerKeyInFile | apps/daemon/src/agent_status_hooks/codex_trust.rs:21-78 | in the file as it is read after an install each key heads one line, and two exactly if a second byte order mark hid its header from an install that wrote |
| CodexTrustFile.HidingFileChangesAgain | apps/daemon/src/agent_status_hooks/codex_trust.rs:21-78 | for any trusts there is a file that a second install changes again and that is read with two blocks for a key |
| CodexTrustFile.RemovedKeepsMark | apps/daemon/src/agent_status_hooks/codex_trust.rs:121-148 | removal keeps a first line that begins with a byte order mark and brings no such line to the front |
| TreeRenderer.Descends | apps/computer-use-macos/Sources/AgentStartComputerUseMacOS/main.swift:1551-1652 | each level of the recursion has fewer elements that are not ancestors, elided nodes and cycles included, so rendering ends |
| TreeRenderer.VisitValid | apps/computer-use-macos/Sources/AgentStartComputerUseMacOS/main.swift:1551-1698 | rendering keeps the indexes strictly increasing and below 1200, the records exactly those of the remaining lines, each line true to its element, and the focused element absent or recorded |
| TreeRenderer.CompactedValid | apps/computer-use-macos/Sources/AgentStartComputerUseMacOS/main.swift:1671-1698 | so does the compaction of browser tabs |
| TreeRenderer.WalkIsShown | apps/computer-use-macos/Sources/AgentStartComputerUseMacOS/main.swift:1551-1698 | every element that a walk without repetition reaches, past the children that a tab strip omits, is recorded unless the tree is reported as truncated; the compaction of tabs takes away none but an inactive tab |
| TreeRenderer.VisitAddsOnly | apps/computer-use-macos/Sources/AgentStartComputerUseMacOS/main.swift:1551-1698 | every new record is of an element that such a walk reaches, and the tree is reported as truncated only when 1200 nodes are numbered or a walk is 64 levels deep |
| TreeRenderer.CompactionByDropping | apps/computer-use-macos/Sources/AgentStartComputerUseMacOS/main.swift:1671-1698 | compaction happens exactly when there are at least ten direct tabs and an active one, and puts one line in the place of what it drops |
| TreeRenderer.KeptIncreasing | apps/computer-use-macos/Sources/AgentStartComputerUseMacOS/main.swift:1671-1698 | of the lines exactly the inactive direct tabs go, and exactly their indexes with them, and the order stays |
| TreeRenderer.Renderer.Render | apps/computer-use-macos/Sources/AgentStartComputerUseMacOS/main.swift:1551-1652 | the method that updates lines, records, index and focus in place computes the visit |
| TreeRenderer.Renderer.CompactRenderedBrowserTabs | apps/computer-use-macos/Sources/AgentStartComputerUseMacOS/main.swift:1671-1698 | the backward pass that removes lines and records in place computes the compaction |
| TreeRenderer.RenderTree | apps/computer-use-macos/Sources/AgentStartComputerUseMacOS/main.swift:1530-1698 | a rendering from scratch ends in a consistent state, with records only for elements that a walk reaches, and for all of them but compacted inactive tabs when it is not truncated; it is truncated only for one of those two reasons |
| SnapshotCache.IndexIsLatest | apps/computer-use-macos/Sources/AgentStartComputerUseMacOS/main.swift:287-347 | a key is in the index exactly when a live entry lists it, and holds the snapshot of the latest one that does |
| SnapshotCache.EvictionKeepsIndex | apps/computer-use-macos/Sources/AgentStartComputerUseMacOS/main.swift:357-360 | evicting the oldest entry gives the index of the rest: no key that a newer entry stored again is lost, and none leaks |
| SnapshotCache.PrunedDrops | apps/computer-use-macos/Sources/AgentStartComputerUseMacOS/main.swift:349-362 | pruning drops only oldest entries that are expired or have 32 newer ones |
| SnapshotCache.PrunedIsFresh | apps/computer-use-macos/Sources/AgentStartComputerUseMacOSCore/ComputerSnapshotCachePolicy.swift:4-14 | at most 32 entries remain, and none is expired exactly when no expired one among the last 32 stands behind one that is not; so never when the clock never went back |
| SnapshotCache.ClockWentBack | apps/computer-use-macos/Sources/AgentStartComputerUseMacOSCore/ComputerSnapshotCachePolicy.swift:7-14 | there is a log of entries with keys and distinct identifiers in which an expired entry remains |
| SnapshotCache.LastStays | apps/computer-use-macos/Sources/AgentStartComputerUseMacOS/main.swift:343-362 | an entry just added survives the pruning that follows, as the last one, exactly if it has not expired since or an older one among the last 32 that has not holds it back; otherwise nothing survives |
| SnapshotCache.RememberedIsFound | apps/computer-use-macos/Sources/AgentStartComputerUseMacOS/main.swift:287-420 | a snapshot just remembered is what a lookup by its window, its window index or any of its names finds, exactly then |
| SnapshotCache.Provider.RememberSnapshot | apps/computer-use-macos/Sources/AgentStartComputerUseMacOS/main.swift:287-347 | the stores, the appended entry and the pruning keep the map equal to the index of the log |
| SnapshotCache.Provider.PruneSnapshotCache | apps/computer-use-macos/Sources/AgentStartComputerUseMacOS/main.swift:349-362 | the eviction loop prunes the log and keeps the map equal to its index |
| WorkspaceScan.RootAdds | apps/daemon/src/workspace_space.rs:330-385 | the traversal with its running item totals computes the recursive sums of bytes, skipped entries and items over readable nodes of depth at most 128 |
| WorkspaceScan.RunPushed | apps/daemon/src/workspace_space.rs:335-384 | the stack loop is the recursive traversal: entries pushed are done before what was below them |
| WorkspaceScan.ScanWorktree | apps/daemon/src/workspace_space.rs:330-404 | the loop reports a missing root, a cancellation exactly when it is seen before the entries or their limit run out, a tree with too many entries, and otherwise that row |
| WorkspaceScan.RowConserves | apps/daemon/src/workspace_space.rs:386-403 | without saturation the reported bytes are the root's own, the kept items' and the omitted items'; with it they are the largest 64-bit number |
| WorkspaceScan.RowSelects | apps/daemon/src/workspace_space.rs:386-403 | kept and omitted items together are all items, at most 32 are kept, and none omitted is larger than one kept |
| WorkspaceAnalysis.RepoIds | apps/daemon/src/workspace_space.rs:252-258 | the pass with its set of observed repositories lists each one once, in the order of first appearance |
| WorkspaceAnalysis.Analyze | apps/daemon/src/workspace_space.rs:246-292 | the loop over repositories builds the analysis of the scanned rows |
| WorkspaceAnalysis.AnalysisLists | apps/daemon/src/workspace_space.rs:246-279 | the reported rows are the scanned ones, by falling size and then by name, and every repository has exactly one summary, of all its rows |
| WorkspaceAnalysis.AnalysisConserves | apps/daemon/src/workspace_space.rs:263-292 | the summaries' counts add up to the analysis, and so do their sizes modulo 2^64, which are the totals of the scanned rows |
| SingleFlight.AtMostOneActive | apps/daemon/src/workspace_space.rs:155-206 | in every reachable state at most one scan is active, and it is the one in flight |
| SingleFlight.SameScanSameOutcome | apps/daemon/src/workspace_space.rs:183-206 | callers that joined the same scan are given the same outcome, the scan's |
| SingleFlight.StepKeepsAnswers | apps/daemon/src/workspace_space.rs:155-206 | an outcome once published stays, and so do the scan of each caller and every answer |
| SingleFlight.NoLostWakeup | apps/daemon/src/workspace_space.rs:557-567 | a caller that sleeps on a scan whose waiters were notified can wake |
| SingleFlight.CancelledExactlyOnce | apps/daemon/src/workspace_space.rs:144-153 | of the cancellations of a scan exactly one is answered with true |
| SingleFlight.NoDeadlock | apps/daemon/src/workspace_space.rs:155-206 | while a caller waits some task can take a step |
| SingleFlight.EveryCallerReturns | apps/daemon/src/workspace_space.rs:155-206 | the tasks take only so many steps, and when none can take another every caller that did not give up has the outcome of its scan |
| Accounts.DeliveriesAreOrderly | apps/daemon/src/account_usage/accounts.rs:551-572 | what a subscriber is given begins with its ready event, has no second one, and never goes back to an older version |
| Accounts.NothingIsMissed | apps/daemon/src/account_usage/accounts.rs:462-513 | a live subscriber has been given, or has waiting, a version at least as new as the one read by the last completed publish |
| Accounts.PublishCovers | apps/daemon/src/account_usage/accounts.rs:508-513 | a completed publish has read every change made before it began |
| Accounts.CatchesUp | apps/daemon/src/account_usage/accounts.rs:551-572 | at most three steps of its own bring a live subscriber up to the last completed publish |
| Accounts.StepKeepsDeliveries | apps/daemon/src/account_usage/accounts.rs:462-580 | deliveries are only added to, and what was published never becomes older |
| Versions.ParseIsGrammar | packages/client/src/app-version.ts:6-19 | the parser accepts exactly the texts of the version pattern and reads their captures, so no text has two readings |
| Versions.CompareAppVersions | packages/client/src/app-version.ts:51-95 | the two loops with their early returns compute the lexicographic comparison |
| Versions.CompareIsAntisymmetric | packages/client/src/app-version.ts:35-95 | swapping the versions swaps the sign, and an answer that is no number stays one |
| Versions.NotANumberExactly | packages/client/src/app-version.ts:35-95 | the answer is no number exactly when both texts are versions with the same core, and the first identifiers that do not compare as equal are both numbers beyond every double |
| Versions.EqualsItselfExactly | packages/client/src/app-version.ts:35-95 | a text equals itself exactly if it is no version or none of its pre-release identifiers is such a number; otherwise the answer is no number |
| Versions.HugeIsUnequal | packages/client/src/app-version.ts:35-95 | with doubles as IEEE 754 defines them (section 4.3.1), versions whose pre-release is a number of 310 or more digits do not equal themselves or each other |
| Versions.RoundingExists | packages/client/src/app-version.ts:14-17 | there is a rounding as the lemmas assume it |
| Versions.TransitiveVersions | packages/client/src/app-version.ts:35-95 | comparing parsed versions is transitive, across numeric and other identifiers and lists of different lengths |
| Versions.TransitiveExactlyOnVersions | packages/client/src/app-version.ts:51-56 | on a set of texts comparing is transitive exactly when all of them are versions or all are equal |
| Versions.PreorderExactlyOnVersions | packages/client/src/app-version.ts:35-95 | it is a total preorder exactly when all are versions without a number beyond every double in their pre-releases, or all are equal |
| Versions.NoVersionBreaksOrder | packages/client/src/app-version.ts:51-56 | with the empty text between the versions 2 and 1 it is not transitive |
| Versions.CompareIsPrecedence | packages/client/src/app-version.ts:35-95 | with an ASCII collation and numbers a double represents it is the precedence of Semantic Versioning 2.0.0, section 11 |
| Versions.AsciiCompareIsAscii | packages/client/src/app-version.ts:47-48 | there is such a collation, and it is an order |
| RuntimePath.CollapseSlashes | apps/daemon/src/runtime_path.rs:40-59 | the loop with its flag reduces every run of slashes to one and keeps the two of a network path |
| RuntimePath.ComparisonKey | apps/daemon/src/runtime_path.rs:5-23 | the steps of the code give the key |
| RuntimePath.KeyIsNormal | apps/daemon/src/runtime_path.rs:5-95 | every key is in normal form: no doubled or trailing slash, no backslash in a Windows key, lower case unless it leads into a WSL distribution |
| RuntimePath.KeyIsIdempotent | apps/daemon/src/runtime_path.rs:1-95 | the key of a key is the key, every path equals its key, and the paths that are their own keys are exactly those in normal form |
| RuntimePath.TrailingSlash | apps/daemon/src/runtime_path.rs:12-14 | a trailing slash makes no difference, exactly unless the path is empty, the root or a bare drive |
| RuntimePath.WslSpellings | apps/daemon/src/runtime_path.rs:61-86 | both names of the WSL server, in any case, lead to equal paths, exactly when they are the same or more than slashes follows |
| DoubleTap.DetectionIsDoubleTap | packages/client/src/modifier-double-tap-detector.ts:94-153 | an event is reported exactly when it is a fresh bare press in time after the release of the same modifier, whose press completed no double tap, with only releases of other modifiers in between |
| DoubleTap.NoPressServesTwice | packages/client/src/modifier-double-tap-detector.ts:116-138 | of two double taps the later one begins after the earlier one has ended |
| DoubleTap.TapIsDetermined | packages/client/src/modifier-double-tap-detector.ts:116-153 | a double tap completes one tap only |
| DoubleTap.Detector.Process | packages/client/src/modifier-double-tap-detector.ts:97-110 | the answer to an event is its modifier exactly when the history makes it the second press of a double tap |
| DoubleTap.Detector.Restart | packages/client/src/modifier-double-tap-detector.ts:112-114 | a reset counts as an input that breaks a gesture |
| ReverseRegistry.Registry.ConnectWeb | apps/daemon/src/reverse_protocol.rs:133-155 | a connection is appended under the next generation, and the guard names it |
| ReverseRegistry.Registry.DropRegistration | apps/daemon/src/reverse_protocol.rs:184-192 | the pass over the list keeps the connections with another identifier or generation |
| ReverseRegistry.Registry.Client | apps/daemon/src/reverse_protocol.rs:157-163 | the newest connection, if there is one |
| ReverseRegistry.Registry.ClientOn | apps/daemon/src/reverse_protocol.rs:165-182 | the search from the end finds the newest connection with the identifier |
| ReverseRegistry.LiveIsUndropped | apps/daemon/src/reverse_protocol.rs:133-192 | the live connections are those made and never dropped, in the order they were made |
| ReverseRegistry.GenerationsWrap | apps/daemon/src/reverse_protocol.rs:138-140 | the generations count from 1 and begin again after 2^64 - 1 connections |
| ReverseRegistry.DropTakesItsOwn | apps/daemon/src/reverse_protocol.rs:184-192 | a drop takes its own connection only, exactly unless another live one has the same identifier and generation |
| ReverseRegistry.DropTakesItsDouble | apps/daemon/src/reverse_protocol.rs:133-192 | there is a history of 2^64 connections and drops after which two connections with one identifier are live and listed, and dropping the first empties the list |
| ReverseRegistry.ListedAreLive | apps/daemon/src/reverse_protocol.rs:133-192 | unless a drop meets such a double, the list is the live connections in the order they were made |
| ReverseRegistry.CallsReachNewestLive | apps/daemon/src/reverse_protocol.rs:157-182 | while fewer than 2^64 connections have been made a call goes to the newest live connection, one on an identifier to the newest live one with it, and each fails exactly when there is none |
| ReverseStream.CreditsThenCancel | apps/daemon/src/reverse_protocol.rs:285-353 | a stream sends credits for its call and after them at most one cancel |
| ReverseStream.CreditsMatchMessages | apps/daemon/src/reverse_protocol.rs:289-318 | the credits are the sizes of exactly the payloads whose messages the caller was given, in order |
| ReverseStream.SilentAfterEnd | apps/daemon/src/reverse_protocol.rs:325-353 | nothing is sent after the end of the call, whatever still happens |
| ReverseStream.Stream.Receive | apps/daemon/src/reverse_protocol.rs:289-318 | each branch answers as the history of the stream says and sends what it calls for, and nothing else |
| ReverseStream.Stream.CancelStream | apps/daemon/src/reverse_protocol.rs:320-353 | cancelling, which dropping does too, sends one cancel if the call is still active |
| WorkerPool.WorkersWithinLimit | packages/client/src/map-with-concurrency.ts:9 | there is at least one worker unless the limit is not a number, and never more than the limit or the items allow |
| WorkerPool.CallsAreBounded | packages/client/src/map-with-concurrency.ts:2-20 | in every run the calls are made for the indices in order, each once, no more than allowed are under way, and the run is finite |
| WorkerPool.RestsOnlyAtEnd | packages/client/src/map-with-concurrency.ts:10-18 | a run can go on until every worker has begun and none is in a call |
| WorkerPool.RestMeansDone | packages/client/src/map-with-concurrency.ts:10-19 | then, if no call failed, there is the call's result for every index, exactly unless the limit was not a number and there were items |
| WorkerPool.NoNumberNoResult | packages/client/src/map-with-concurrency.ts:9-19 | if the limit is not a number the pool rests at once, and no item has a result |

## Left out

- File system, processes, network and clocks: a file is its text, a directory tree a finite value, a time or a cancellation an input.
- Text is a sequence of Unicode scalar values, not of bytes; the scanner's byte steps show only where it panics, which is modelled.
- Hashing, JSON decoding of header keys, lower-casing of window names and locale collation are parameters of the model; a lemma that needs a law of one of them states it.
- Versions.CompareIsPrecedence: requires numbers below 2^53, because a double does not tell larger ones apart.
- Versions: a finite difference of two doubles is exact in the model, because the code promises its sign only.
- CodexTrust: the branches for Windows (the second spelling of a source path and the `[hooks.state]` table) and the resolution of the source path are not modelled.
- WorkspaceScan: the path that asks the `du` command is not modelled; the tree does not change during a scan.
- WorkspaceAnalysis: fields that are copied from the first row of a repository are not modelled; sums of sizes wrap around as in a build without overflow checks.
- TomlFile: the size limit of 16 MiB and the kinds of file that are refused are not modelled.
- TreeRenderer: line wording, titles, frames and the heuristics that classify a node are not modelled; a node comes with its classification, and the graph does not change during a rendering.
- SingleFlight: what a running scan does with a cancellation is not modelled; its outcome may be any. A scan that panics is not modelled.
- Accounts: reading a snapshot is one step, although the code reads several parts; a subscription is named by its number, not by the text made from it.
- ReverseRegistry: poisoned locks are not modelled; the registration without a generation belongs to them.
- ReverseStream: deadlines, the command channel and unary calls are not modelled.
- DoubleTap: the mapping of key codes and flags to modifier events is not modelled; it is a table.
- Small policies of the repository (override maps, merge gates, list caches, close reasons) are left out because they would only add easy members.
