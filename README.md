# AWS IAM key scanner: a verified model of the scanning pipeline

The scanner walks a git repository and looks for AWS access key pairs. For every branch it makes two passes:

- **Tip snapshot.** It reads every file of the tip commit's tree.
- **History replay.** It walks the whole commit log in the reverse of the order `Log` yields it, which is oldest first only for a linear history. It diffs each commit against its diff base and reads every chunk of the diff.

In each text it looks for two kinds of candidate:

- 20-character access key identifiers;
- 40-character secret keys.

It trims newlines from both ends of each candidate. It then probes every identifier together with every secret against AWS. A pair that the program's decision accepts becomes a seven-field record:

- the file
- the commit hash
- the branch
- the author
- the message
- the access key
- the secret key

At the end the records are deduplicated.

The repository holds two versions of this program:

- `main_script.go` validates pairs concurrently and counts only a successful `GetUser` call.
- `main.go` validates pairs sequentially and also counts an `AccessDenied` error.

The model writes the shared pipeline once. `Validation.Variant` selects the decision. The Git repository and the AWS probe are inputs:

- a `Git.Repository` value holding branches, commit objects, trees, the log and the diffs;
- a `Pairing.Probe` oracle from a key pair to an `Outcome`.

The modules, in dependency order:

| module | file | what it holds |
|---|---|---|
| `Wrappers` | wrappers.dfy | `Option` and `Result` |
| `Sequences` | sequences.dfy | `Elements`, `Distinct`, `FlatMap`, `MapAll` and `Reversed`, with their lemmas |
| `Extraction` | extraction.dfy | The two key patterns under Go `regexp`'s `FindAllString` semantics, written as a recursive scanner |
| `Newlines` | newlines.dfy | `sliceNewLines` and `stripNewlines` |
| `Validation` | validation.dfy | The outcome→bool decisions of both programs, and the five-way reference classification |
| `Git` | git.dfy | The repository as data; `getCommitDifferences` |
| `Findings` | findings.dfy | The record type and the deduplication |
| `Pairing` | pairing.dfy | The nested identifier × secret loops over one text |
| `Traversal` | traversal.dfy | The snapshot loop and the history replay loops |
| `ScanPipeline` | scan.dfy | The branch loop, the error exits and the final deduplication |

Each loop of the programs is a `method` with a `while` or `for` loop. Each method is proved equal to a specification function, and the properties are proved about those functions.

The traversal methods take a ghost `unit: UnitScan` tied to the pair loops by `Pairing.ScansAs`. That lets traversal proofs treat the scan of one text as a single value.

## Model

| member | source | states |
|---|---|---|
| `Extraction.BodyStart` | main_script.go:33-34 | The `^` alternative is tried before a leading boundary character. The key part of a match starts at the match start or one character later, and it is followed by a non-key character or the end of the text. |
| `Extraction.MatchEnd` | main.go:46-47 | A match is never empty and never runs past the end of the text. |
| `Extraction.ScanFrom` | main_script.go:77-78 | Every reported span is a place where the pattern matches, and it ends where the trailing group stops. Spans are in left-to-right order and do not overlap. |
| `Extraction.FindAllString` | main.go:74-75 | Returns one candidate string per match, in match order. |
| `Extraction.ScanFromComplete` | main_script.go:165-166 | Leftmost-first completeness from any search position: every position where the pattern could match is inside some reported match. |
| `Extraction.FindAllComplete` | main.go:129-130 | Over the whole text, no place where a key could match is missed. It is either reported or swallowed by an earlier match. |
| `Extraction.MatchShape` | main_script.go:33-34 | The key part of a match is a maximal run of exactly n key characters. The leading boundary is missing only at the start of the text, and the trailing one only at its end. |
| `Extraction.MaximalRunsDisjoint` | main_script.go:33-34 | Two maximal key-character runs are either the same run or do not overlap. |
| `Extraction.OtherLengthRunIgnored` | main_script.go:33-34 | A maximal run of any length other than n shares no character with the key part of any match. So 19- and 21-character runs yield no identifier. |
| `Extraction.CandidateShape` | main_script.go:77-78 | Each candidate string has the shape (boundary?) · n key characters · (boundary?). A boundary character is a non-key character. The leading boundary is missing only at the start of the text, and the trailing one only at its end. |
| `Extraction.SkipKeyRun` | main_script.go:33 | Past the start of the text, no match can begin at a key character. |
| `Extraction.SharedBoundaryHidesSecond` | main_script.go:33 | Two n-character tokens separated by one non-key character yield only the first token. The first match consumes the separator that the second token would need. |
| `Extraction.TwoSeparatorsFindBoth` | main.go:46 | With two separating characters, both tokens are found, each carrying one separator. |
| `Extraction.FlankedTokenKeepsFlanks` | main.go:46 | A token between two non-key characters is returned with both flanking characters. |
| `Extraction.IdentifierThenSecret` | main_script.go:77-78 | An identifier line followed by a secret line gives exactly one identifier candidate, ending in the newline, and exactly one secret candidate, starting with it. |
| `Newlines.Repeat` | main_script.go:304-309 | k newline characters. |
| `Newlines.TrimNewlines` | main_script.go:302-312 | The trimmed text neither starts nor ends with a newline, and it is no longer than the input. |
| `Newlines.StripNewlines` | main.go:292-303 | The two loops compute `TrimNewlines`: leading newlines are removed first, then trailing ones. |
| `Newlines.TrimSplits` | main_script.go:302-312 | Every input is some newlines, then the trimmed text, then some newlines. Interior characters, including `'\r'` and spaces, are unchanged. |
| `Newlines.RepeatCons` | main_script.go:304-309 | Adding a newline in front of a run of newlines is the same as adding one at the end. |
| `Newlines.TrimTrailing` | main_script.go:308-310 | Any number of trailing newlines after a text without edge newlines are all removed. |
| `Newlines.TrimUnique` | main.go:292-303 | Uniqueness of the decomposition: any newline runs around a text without edge newlines trim back to exactly that text. |
| `Newlines.TrimIdempotent` | main_script.go:87-88 | Trimming twice is trimming once. |
| `Validation.ScriptValidate` | main_script.go:270-299 | True exactly when the session is created and `GetUser` succeeds. `InvalidClientTokenId`, `SignatureDoesNotMatch`, `AccessDenied` and every other failure give false. |
| `Validation.MainValidate` | main.go:221-250 | True exactly when the outcome is live: `GetUser` succeeded, or it failed with the code `AccessDenied`. A session error or any other failure gives false. |
| `Validation.TestIAMKeys` | main.go:253-279 | The same success-or-`AccessDenied` rule for the S3 `ListBuckets` probe. A session-creation failure gives false. |
| `Validation.ScriptNarrowerThanMain` | main_script.go:284-298 | main_script.go accepts only what main.go accepts. The two differ on exactly one outcome, an `AccessDenied` error. |
| `Git.CommitDifferences` | main.go:197-219 | A parentless commit gives no changes and no error. Otherwise the last parent's tree is diffed against the commit's tree. The method fails exactly when one of those trees or the diff is unavailable, and on success it returns that diff. |
| `Findings.Deduplicate` | main_script.go:202-219 | The result holds exactly the records of the input, each once, so its length is the number of distinct input records. |
| `Findings.DistinctCardinality` | main.go:162-179 | A duplicate-free list has as many distinct records as entries. Deduplicating a deduplicated report keeps every record. |
| `Pairing.Pairs` | main_script.go:85-86 | m identifiers and n secrets give m×n pairs. |
| `Pairing.PairsIndex` | main.go:77-78 | Pair (i, j) sits at position i·n + j, so the visiting order is identifier-major and each pair has its own slot. |
| `Pairing.PairsMembership` | main_script.go:85-86 | A pair is visited exactly when its identifier is among the identifiers and its secret among the secrets. |
| `Pairing.ConfirmMembership` | main_script.go:98-114 | A record is appended exactly for the visited pairs the decision accepts, and it carries the unit's provenance. |
| `Pairing.PairsSnoc` | main.go:77-78 | One more identifier appends its row of pairs. |
| `Pairing.RowSnoc` | main.go:78 | One more secret appends one pair to the row. |
| `Pairing.ConfirmSnoc` | main.go:82-92 | Validating one more pair appends its record exactly when the decision accepts the pair. |
| `Pairing.ConfirmAppend` | main.go:77-95 | The records of two runs of pairs are the records of the first run followed by those of the second. |
| `Pairing.ValidateRow` | main.go:78-94 | The inner loop re-trims the access key variable on every iteration. It hands the validator the trimmed identifier with each trimmed secret, in order, and appends the records of the accepted pairs. |
| `Pairing.ValidateUnit` | main.go:74-95 | For one text, the validator is called exactly once per (trimmed identifier, trimmed secret) pair, in identifier-major order, which is \|identifiers\| × \|secrets\| calls. Records are appended exactly for the accepted calls. |
| `Pairing.UnitScansAs` | main_script.go:77-119 | The pair loops of a variant form a unit scan that agrees with them on every text. |
| `Pairing.ScanUnit` | main_script.go:77-119 | The pair loops over one text produce what the unit scan prescribes. |
| `Pairing.UnitMembership` | main_script.go:77-119 | A record comes out of a text exactly when three things hold: its provenance is the text's; its keys are a trimmed identifier candidate and a trimmed secret candidate of the text; and the decision accepts the pair. |
| `Pairing.ConfirmRebrand` | main.go:142 | Validating under another branch name gives the same records with only the branch field changed. |
| `Pairing.UnitRebrand` | main_script.go:180 | The scan of one text under another branch name gives the same records with only the branch field changed. |
| `Pairing.SinglePairUnit` | main_script.go:85-116 | A text with exactly one trimmed identifier and one trimmed secret yields that pair's record when the decision accepts it, and nothing otherwise. |
| `Pairing.KeyPairLines` | main_script.go:77-88 | An identifier line followed by a secret line trims back to exactly those two keys. |
| `Pairing.KeyPairLinesUnit` | main_script.go:77-116 | An accepted identifier line followed by a secret line yields exactly one record, for that pair. |
| `Sequences.FlatMapMembership` | main.go:125-127 | An element is in the concatenated output exactly when some input contributes it. |
| `Sequences.FlatMapMapAll` | main.go:142 | If every input's contribution is a mapped copy of another input's contribution, then the concatenation is the mapped copy of the other concatenation. |
| `Sequences.ReversedSuffix` | main.go:116-117 | One more step of the reverse walk appends the next-older entry. |
| `Sequences.ReversedAppend` | main_script.go:147 | Reversing a concatenation reverses and swaps the two parts. |
| `Sequences.FlatMapAppend` | main_script.go:147-193 | The output over two concatenated lists is the output of the first list followed by that of the second. |
| `Traversal.FirstUnreadable` | main.go:68-72 | The files before the returned index are all readable, and the file at it, if there is one, is not. |
| `Traversal.SnapshotPass` | main.go:68-97 | The snapshot loop scans each file's contents in order and stops at the first file that cannot be read. |
| `Traversal.SnapshotProvenance` | main_script.go:70-125 | Every snapshot record names the tip commit (hash, `Name <Email>` author, message) and the branch. Its file is one of the readable files before the first unreadable one, and the program's decision accepted its pair. |
| `Traversal.ChunksPass` | main.go:127-152 | The chunks of one file patch are scanned in order under the patch's destination path. |
| `Traversal.CommitPass` | main_script.go:161-192 | The file patches of one commit are scanned in order. |
| `Traversal.ReplayCommit` | main_script.go:148-192 | A commit whose differences cannot be computed is skipped. Otherwise every chunk of its diff is scanned. |
| `Traversal.HistoryPass` | main_script.go:147-193 | The log's commits are replayed from the last entry to the first. |
| `Traversal.RootCommitSilent` | main_script.go:254-256 | A parentless commit contributes nothing to the replay. |
| `Traversal.HistoryOldestFirst` | main.go:115-117 | When a log lists newer commits before older ones, the older commits' records come first. |
| `Traversal.HistoryMembership` | main.go:116-154 | Every commit of the log is replayed. A record is in the history exactly when one of the log's commits contributes it. |
| `Traversal.EveryChunkScanned` | main.go:125-130 | Every chunk of every file patch is scanned, whatever its kind, and its records carry the diffed commit's hash. |
| `Traversal.CommitRecord` | main_script.go:149-190 | Every record of a replayed commit names that commit, not its parent: hash, author and message. The commit has a parent and its diff succeeded. The file is a destination path of the diff, and the pair was accepted. |
| `Traversal.HistoryProvenance` | main_script.go:147-193 | Every history record comes from some commit of the log, as `CommitRecord` describes, under the branch being scanned. |
| `Traversal.PatchBranchBlind` | main.go:142 | One file patch scanned under two branch names differs only in the branch field. |
| `Traversal.CommitBranchBlind` | main.go:118-142 | One commit replayed under two branch names differs only in the branch field. |
| `Traversal.HistoryBranchBlind` | main.go:99-154 | The log does not depend on the branch, so two branches' replays differ only in the branch field. |
| `Traversal.RemovedPairReported` | main_script.go:161-190 | A commit whose diff only deletes an accepted identifier/secret line pair is reported under its own hash, with the pair. |
| `Traversal.KeyPairFileSnapshot` | main_script.go:70-125 | A tip tree holding one file with an accepted identifier line and secret line yields exactly one record, naming that file and the tip commit. |
| `ScanPipeline.ErrPersists` | main_script.go:54-61 | Once a branch has failed, the later branches change nothing: the first failure is the result. |
| `ScanPipeline.BranchesStep` | main.go:56-156 | Scanning one more branch appends its snapshot and replay records, or stops with its error. |
| `ScanPipeline.Scan` | main_script.go:54-219 | The program fails exactly when the branch loop fails, and with the same error. Otherwise its report holds exactly the records the branch loop appended, each once. |
| `ScanPipeline.ScanFailsIff` | main.go:56-113 | The scan stops with an error exactly in two cases: some branch's tip commit or tree cannot be loaded, or there is a branch and the log cannot be read. |
| `ScanPipeline.ScanMembership` | main.go:56-156 | A successful scan means every branch resolved and the log was read. A record is in it exactly when some branch's snapshot or replay contributes it. |
| `ScanPipeline.ScanSound` | main_script.go:54-200 | Every reported record's pair passed the program's decision and is reported under the name of one of the scanned branches. |
| `ScanPipeline.SingleCommitScenario` | main_script.go:54-195 | Setup: one branch `main`, whose tip is a root commit holding one file with an accepted identifier line and secret line. Result: the scan reports exactly one record, with that file, the commit's hash, author and message, and the two keys. |

## Behaviour worth noting

- **Boundary characters.** `FindAllString` returns the boundary characters as part of the match, and only `'\n'` is trimmed afterwards. A token between spaces or quotes therefore keeps them, and is probed that way (`Extraction.FlankedTokenKeepsFlanks`). Two tokens that share a single separator yield only the first (`Extraction.SharedBoundaryHidesSecond`).
- **Diff base of a merge.** `getCommitDifferences` keeps overwriting `parent` while iterating the parents, so a merge commit is diffed against its last parent only (`Git.CommitDifferences`).
- **Deleted text.** Every chunk is scanned, including deleted text and unchanged context. The comment at main_script.go:174 speaks of checking only the commit difference, but a commit that removes a key pair is reported under its own hash too (`Traversal.EveryChunkScanned`, `Traversal.RemovedPairReported`).
- **`AccessDenied`.** main.go counts an `AccessDenied` error as a valid key, as its header comment at main.go:6 says (`Validation.MainValidate`). main_script.go counts only success (`Validation.ScriptValidate`).
- **Branch errors.** A branch whose tip commit or tree cannot be loaded ends the whole scan, and nothing is reported (`ScanPipeline.ScanFailsIff`).
- **History per branch.** The history is the log of `HEAD`, not of the branch. Every branch replays the same commits, and the records differ only in the branch name (`Traversal.HistoryBranchBlind`).

## Left out

- Opening the repository (`PlainOpen`) and listing branches (`Branches`) are not modelled. Their failures exit before any scanning. The branch list is input data.
- go-git object access (`CommitObject`, `Tree`, `Files`, `Contents`, `Log`, `Parents`, `Diff`, `Patch`, `Chunks`) is not reimplemented. Its answers are fields of `Git.Repository`.
- Every parent is assumed loadable. go-git's `Parents()` iterator stops at a parent it cannot load, which would change which parent is "last"; the model does not capture that.
- `tree.Patch()` errors are not modelled. main.go ignores them and main_script.go only prints them. The patch list is taken as given.
- Deleted files are not modelled specially. Each patch carries a destination path (`toPath`), so the nil `toFile` of a deleted file, on which the code would call `Path()`, is not represented.
- The AWS SDK is not modelled: session creation, IAM `GetUser`, S3 `ListBuckets`, regions and the network. A probe is the oracle `Pairing.Probe` returning an `Outcome`. `createSession` appears only as the `SessionFailed` outcome.
- main_script.go's goroutines, `sync.WaitGroup` and `sync.Mutex` are not modelled. The pair loops are sequential here. Appends are serialised by the mutex and joined before the next file, so the records of one file are the same. Their order within the file is not the program's, and only the deduplicated set, where order does not matter, is claimed.
- Map iteration order in deduplication is not fixed. The second loop picks the remaining records in an unspecified order. Only the set of records and their distinctness are stated.
- Printing is not modelled: the report, the diagnostic `Printf`s in the validators and the "Error getting patch" messages. `os.Exit` is modelled as the `Err` result of `ScanPipeline.Scan`, without exit status or message.
- Strings are sequences of characters, not bytes. Go's regexp and the trimming work on UTF-8 bytes. For ASCII text and for `'\n'` the two coincide; non-ASCII characters are not modelled byte by byte.
- `Validation.Classify` is a five-way reference classification of probe outcomes by the error codes the programs inspect. It is used only as the reference that the two decisions are proved against. Neither program computes it.
- The order of the commit log is input data. `r.Log(&git.LogOptions{})` walks from `HEAD` depth first, so with merges the reversed log need not list every parent before its children. The model replays `Repository.log` from its last entry to its first and assumes nothing about that order.
