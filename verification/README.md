# Verified model of the release gates

This project models the parts of the repository that decide something and that are hard to
read correct, and proves what they promise. Nothing here runs the original programs.

- `Chains`, `ProcessTables`, `Ownership`, `OwnershipExample`, `AmbiguousNames`, `Classifier`: the
  fail-closed classifier of `tests/run_release_gates.sh`. It reads five process tables and refuses, or
  says which Windows processes descend from the runner. `Ownership` states the decision
  without any order of traversal; `Classifier` is the program, with its shared stamp table,
  its sticky error and loops over tables in arbitrary order, proved against it. `PlainRows` and
  `PlainOwnership` say the same once more in the fields of the rows and in paths.
- `EvidenceCapture`, `NodeCount`, `IdentityCleanup`: the two state machines around it. A sample may be
  abandoned after any write; a cleanup runs while processes exit and pids are reused.
- `Utf8`, `TextOffsets`, `TextDecoder`, `Mojibake`, `TextScan`, `MojibakeExceptions`,
  `RepositoryScan`, `NulRecords`, `IndexEntries`, `Decimals`, `BatchCheck`, `AsciiEscape`: the text
  gate of `tests/check_text_integrity.mjs`, from bytes to findings, and its Git framing. `TextLaws`
  and `GitLaws` say what its constants and formats mean, in numbers.
- `Lines`, `Headings`, `HeadingLines`, `Brackets`, `CodeSpans`, `CodeBlocks`, `MarkdownMasks`,
  `MaskedPlaces`: the structural Markdown passes of `tests/check_docs_quality.mjs`. JavaScript strings
  are sequences of UTF-16 units. `CodeBlocks`, `BracketLaws` and `MarkdownLaws` define fenced
  blocks, balanced brackets, comments and dated lines a second time, by their shape.
- `DmsLock`, `GuardedDatabase`, `LockLaws`: the byte-lock admission of
  `skills/ipc/scripts/codex_ipc_db_read.py`, as interleaved system calls of any number of reader
  and owner handles, and the guarded reads that take the lock on their stack of resources.
- `SectionMask`, `SectionLaws`: the masking automaton of `tests/test_git_context_bound.sh`.

Four things the code does differ from what one would expect of it:

- `maskMarkdownCode` does not keep the length of a line on which a run of backticks has no
  closing run, when the line ends right there or in a longer run that its length divides. The
  search for the closing run then leaves its loop at the end of the line
  (`tests/check_docs_quality.mjs:235-240`) and the result is taken for a closing run.
  `CodeSpans.MaskIsPointwise` gives the exact condition, `CodeSpans.TrailingRunGrows` inputs.
- Because of this, a section that `maskExactHistoricalKeepFences` finds on the visible text fits
  the text it blanks if and only if no line grows before it, or before the heading that closes it
  (`MaskedPlaces.SectionFitsIffNothingGrows`). After a line of a letter and n backticks the first n
  units of the dated heading stay; with 54 backticks all of it stays (`MaskedPlaces.DatedHeadingStays`).
- The comment in `existing_index_lock` takes a failed exclusive probe for a live SQLite
  connection. It may be another reader's probe (`DmsLock.ProbeAdmitsWithoutOwner`);
  `DmsLock.AdmissionMeansOwner` says exactly when the conclusion is right: an owner holds the byte,
  or no other reader does.
- The rule that refuses rather than counts zero looks at processes called `node.exe` only, while the
  count also takes `node` for node. `AmbiguousNames.OverlookedNames` gives the exact condition on
  the name, with a sample that overlooks a process of any other name.

## Model

| member | source | states |
|---|---|---|
| Classifier.Classify | tests/run_release_gates.sh:217-409 | For rows in any order the collector writes (PS rows before endpoint rows), a run refuses, or counts exactly the declaratively defined owned set with the runner's id, birth and start; an inconsistent batch is refused. For rows in any other order it can only refuse more often. A count is justified in the fields of the rows alone: every counted process has a late path, births never rising, to the PRE win of a row whose PS-parent path to the runner has on each row PRE live with the PS parent and POST alike in parent and win, or gone with PRE's win equal to PS's; each such path makes a root; and nothing that meets this is left out |
| Classifier.AnswerIsUnique | tests/run_release_gates.sh:253-408 | Order independence: two runs over the same multiset of rows, in any two orders with the PS rows first and with every `for (x in array)` loop in any order, either both refuse or count the same set |
| Classifier.AnswersAreJustified | tests/run_release_gates.sh:217-409 | Every answer in the collector's order, refusals included, is the one that the row-by-row account of the batch gives: refused exactly if no tables of a readable batch are accepted by it |
| PlainOwnership.DecisionIsPlain | tests/run_release_gates.sh:217-405 | The order-free decision and its owned set are the ones spelled out in paths over the fields of PS, PRE, POST, CIM_PRE and CIM: what is read twice alike, the remap rule (equal rows in both snapshots, never for the runner or the enumerator), roots, possible ownership, the enumerator's own path, doubt |
| PlainOwnership.RootsAgree | tests/run_release_gates.sh:231-252 | Both directions: a root is exactly the PRE win of a row with a finite PS-parent path to the runner over rows that are each read twice alike or bracketed |
| PlainOwnership.BelongingIsPossible | tests/run_release_gates.sh:355-368 | The least closed set is exactly the rows with a finite path of PS, PRE or POST parent edges to the runner |
| PlainRows.BatchesAgree | tests/run_release_gates.sh:253-310 | A batch is consistent exactly if it has no unreadable row, no id 0 where one is due, no two rows that disagree, one endpoint read for each phase and listed row, and calendar timestamps |
| PlainRows.TablesAgree | tests/run_release_gates.sh:253-309 | Tables say what a batch says exactly if each of them lists the rows of its kind and nothing else |
| PlainRows.TimestampsAgree | tests/run_release_gates.sh:221-230 | Twenty digits are a timestamp exactly if they are the year, month, day, hour, minute, second and microsecond of an instant of the Gregorian calendar |
| Classifier.State.ReadRow | tests/run_release_gates.sh:253-310 | One row: the tables become what the row adds to them, or the sticky error is set exactly for a malformed or conflicting row; nothing else changes |
| Classifier.State.ReadRows | tests/run_release_gates.sh:253-310 | After a whole batch without error the batch is consistent and the tables say exactly what its rows say; with an error no answer but refusal is possible |
| Classifier.State.CheckContinuity | tests/run_release_gates.sh:312-331 | The checks before any walk fail exactly when the sample is not continuous: runner, enumerator, both snapshot identities, and every stable row the same process in both snapshots |
| Classifier.State.WalkToRunner | tests/run_release_gates.sh:338-347 | One walk up the logical tree with the shared stamp table: it stops, it hits exactly when the certified chain ends at the runner, and it reports a cycle exactly when the chain from its own start revisits a pid |
| Classifier.State.MarkRoots | tests/run_release_gates.sh:337-354 | After all logical walks, in any order of rows, the root set is exactly the anchors of rows that reach the runner and map to a late process no older than it; the error is set exactly on a cycle or an older mapped process |
| Classifier.State.ClosePossible | tests/run_release_gates.sh:357-368 | The do/while loop ends, with exactly the least set that holds the runner and is closed under PS, live PRE and live POST parent edges |
| Classifier.State.CollectUncertain | tests/run_release_gates.sh:369-374 | Exactly the positive Windows ids that some possibly owned row was mapped to by PS, PRE or POST and that are not roots |
| Classifier.State.MarkBook | tests/run_release_gates.sh:376-384 | The bookkeeping walk, unless it finds a cycle, marks exactly the Windows ids of the stable root rows on the enumerator's way to the runner, and reports exactly a cycle of its own |
| Classifier.State.WalkToStop | tests/run_release_gates.sh:387-399 | One walk up the Windows tree, with the birth-time rule and the same stamp table as the logical walks: owned, bookkeeping and ambiguous are exactly the declarative ones for its start, and a cycle is reported exactly when its own chain has one |
| Classifier.State.SelectOutput | tests/run_release_gates.sh:385-404 | Over all late processes in any order: the output is exactly the owned ones not older than the runner without the runner and the enumerator, and the error is set exactly when some process is disputed |
| Classifier.State.Finish | tests/run_release_gates.sh:311-408 | The END block decides as the declarative acceptance does, and returns the owned set exactly |
| Classifier.FinishDecides | tests/run_release_gates.sh:311-405 | The accumulated error flag equals the negation of the order-free acceptance predicate, and on acceptance the accumulated output equals the owned set |
| Classifier.LogicalCycles | tests/run_release_gates.sh:375-384 | A bookkeeping cycle is never the only reason to refuse: it lies on the walk that was checked for the enumerator's own row |
| Classifier.FilterDropsNothing | tests/run_release_gates.sh:385-386 | The runner-birth filter drops no owned process |
| ProcessTables.StoreIsFaithful | tests/run_release_gates.sh:253-309 | Admitting a row keeps the tables equal to the rows read, for every kind of row |
| ProcessTables.RefusalIsJustified | tests/run_release_gates.sh:258-310 | A refused row means that the whole batch is inconsistent, whatever follows it |
| ProcessTables.TablesUnique | tests/run_release_gates.sh:253-309 | Two tables that say what the same batch says are equal, so the tables do not depend on the order of rows |
| ProcessTables.TablesExist | tests/run_release_gates.sh:253-309 | A consistent batch in the collector's order has tables |
| Ownership.OwnershipIsSound | tests/run_release_gates.sh:337-354 | On success every owned process has a finite late parent chain with births never increasing, no bookkeeping id on it, ending at a root that is identical in both snapshots, no older than the runner, and the PRE mapping of a row whose PS parents reach the runner over stable (or bracketed missing-POST) rows only |
| Ownership.LateEvidenceOnlyRefuses | tests/run_release_gates.sh:231-252 | Two accepted samples with the same PS, PRE and CIM tables: a node process output in one is output in the other, or meets the enumerator's bookkeeping path first there; POST and CIM_PRE otherwise only refuse |
| Ownership.NothingAmbiguousIsCountedAsZero | tests/run_release_gates.sh:355-401 | Fail closed: on success, a late node process no older than the runner with no root or bookkeeping id on its chain has no PS, PRE or POST Windows id of a possibly owned row on it either |
| Ownership.PossibleIsLeast | tests/run_release_gates.sh:355-368 | Possible ownership is closed under the sampled parent edges and contained in every closed set |
| Ownership.HitStaysPossible | tests/run_release_gates.sh:337-368 | A row that reached the runner over certified rows is possibly owned in every sample with the same PS rows, whatever its late evidence |
| Ownership.RootStaysSuspicious | tests/run_release_gates.sh:348-374 | A root of one sample is a root or an uncertain id of every other sample with the same counted tables |
| Ownership.BirthsNeverRise | tests/run_release_gates.sh:394-398 | Along a chronological chain births never increase towards the ancestors |
| OwnershipExample.AcceptedSampleExists | tests/run_release_gates.sh:311-408 | A concrete sample with an owned node process is accepted, so the results above are not about nothing |
| Chains.EndsOrCycles | tests/run_release_gates.sh:339-347 | A walk along parent edges ends or revisits a member, never both |
| Chains.EndIsUnique | tests/run_release_gates.sh:388-399 | Where a walk ends is determined by the edges |
| EvidenceCapture.RunDir.Begin | tests/run_release_gates.sh:413-428 | Takes the current index if its last sample succeeded or there was none, else exactly the next one, and succeeds exactly if the index and its status are readable and every write is complete, with status 2 otherwise; a retained sample's files and status are untouched; once its status is written, the index is retained even if the sample ends here; when it returns normally all fifteen files are empty; enum-next never goes back |
| EvidenceCapture.RunDir.Finish | tests/run_release_gates.sh:430-444 | Returns the result, or 2 exactly if the result was 0 and identity or result could not be written; the recorded status is the result whenever both writes are complete |
| EvidenceCapture.RunDir.Sample | tests/run_release_gates.sh:457-577 | The exact exit from the surroundings alone: unless it is killed, 1 exactly if a scratch was acquired and the first failing step is a failing command, or no step fails and the classifier does; 2 exactly if no scratch was acquired, or the first failing step could not keep its evidence, or the classifier succeeded and its output is unreadable or the result unrecorded; 0 otherwise. The recorded status is that of the same code, what was collected lies in its own file, no retained sample changes, and without writing a status it writes nothing |
| EvidenceCapture.RunDir.CountOwnedNode | tests/run_release_gates.sh:590-614 | A count is returned exactly with status 0, only on complete evidence, and is the number of printed rows that name node; every other status is the exact one of the sample |
| EvidenceCapture.RunDir.CountOrAbort | tests/run_release_gates.sh:656-662 | A measuring caller goes on with the count, or ends the run: with 3 exactly for a command or classification that failed, with 2 for evidence that could not be kept |
| NodeCount.CountMeansOwnership | tests/run_release_gates.sh:590-614 | If the classifier printed its answer, the counted rows are as many as the owned processes whose name is node |
| EvidenceCapture.RunDir.RunSamples | tests/run_release_gates.sh:411-577 | Over any run of samples, each possibly killed or failed after any write of acquisition, collection or capture: a sample that began leaves its index retained exactly when it did not live to record complete evidence; a retained index is never taken again, its files and status stay as they were to the end of the run, and enum-next never decreases between any two samples; each sample acquires its scratch exactly if the files before it allow it, and returns its exact status |
| EvidenceCapture.RunDir.CountFromRows | tests/run_release_gates.sh:519-614 | From input rows to the returned number: a count is returned only if the rows are readable and their tables accepted, and it is the number of late processes with a path to the runner whose last name part spells node or node.exe; every other status is the exact one for the classifier's verdict on the rows |
| NodeCount.ClassifyAndPrint | tests/run_release_gates.sh:405-407 | The classifier refuses, or prints the runner's row and one row for each owned process of the tables of its input, in any order |
| NodeCount.NodeNameIsProgram | tests/run_release_gates.sh:589-592 | A printed row is counted exactly if its name, or what follows a slash in it, spells node or node.exe letter by letter in either case |
| AmbiguousNames.OverlookedNames | tests/run_release_gates.sh:355-401 | The limit of failing closed: some accepted sample holds an ambiguous process of a given name, neither counted nor refused, if and only if the name is not node.exe in any case |
| AmbiguousNames.NodeIsOverlooked | tests/run_release_gates.sh:400-401 | A process called node is such a case, although the count takes its name for node |
| AmbiguousNames.OverlookedIsNotCounted | tests/run_release_gates.sh:385-403 | An ambiguous process of an accepted sample is not in the output |
| IdentityCleanup.KillReachesTheCaptured | tests/run_release_gates.sh:699-733 | In every interleaving with exits and pid reuse, a process that a kill reaches is alive at that step under the captured pid and birth of the current row |
| IdentityCleanup.KillsOnlyCaptured | tests/run_release_gates.sh:684-746 | Only captured identities are ever killed, and none in live mode |
| IdentityCleanup.DroppedMeansGone | tests/run_release_gates.sh:702-743 | A row dropped without a failure names a process that was gone by then and stays gone |
| IdentityCleanup.SilentSuccessMeansAllGone | tests/run_release_gates.sh:734-746 | A finished cleanup without output or failure has outlived every captured process |
| IdentityCleanup.ReportedWasKilled | tests/run_release_gates.sh:715-734 | In kill mode a printed row was killed before, and is recorded as killed ever after |
| IdentityCleanup.EveryProcessIsKilledOrGone | tests/run_release_gates.sh:702-746 | A finished kill without a failed row has killed every captured process that has not gone by itself |
| IdentityCleanup.PrintedWasLive | tests/run_release_gates.sh:734 | A printed row was alive under its captured identity at the very step that printed it |
| IdentityCleanup.AliveIsPrinted | tests/run_release_gates.sh:702-746 | Exit status 0 hides nobody: every captured process alive at the end is printed |
| IdentityCleanup.CleanupCanReach | tests/run_release_gates.sh:702-743 | From every state of every run in which the current row's process is alive, the cleanup can finish the row, printed and in kill mode killed: nothing that was done before disables a kill |
| IdentityCleanup.GoneCanBeDropped | tests/run_release_gates.sh:702-743 | From every state of every run in which the current row's process is gone, the row can be dropped without a kill, whoever holds its pid |
| IdentityCleanup.RowKeepsInv | tests/run_release_gates.sh:702-743 | Every step on a row keeps the invariant that ties the open handle to the captured identity |
| IdentityCleanup.GoneForever | tests/run_release_gates.sh:684-686 | No step of the system brings a captured identity back, though its pid may be reused |
| Utf8.FirstInvalidUtf8Offset | tests/check_text_integrity.mjs:137-164 | -1 exactly on UTF8-octets of section 4 of RFC 3629, else the end of the longest prefix made of whole well-formed sequences |
| Utf8.EncodingIsUtf8Char | tests/check_text_integrity.mjs:137-164 | The encoding of section 3 of RFC 3629 produces exactly one UTF8-char of its section 4 for every scalar, and decoding it gives the scalar back |
| Utf8.PrefixFree | tests/check_text_integrity.mjs:137-164 | No encoded character starts another one, so decoding is unambiguous |
| Utf8.DecodingIsUnique | tests/check_text_integrity.mjs:137-164 | Bytes of a text that start the bytes of another text decode to a beginning of it |
| Utf8.ValidUtf8PrefixScalarCount | tests/check_text_integrity.mjs:166-178 | It throws exactly on a malformed range, else returns the number of scalars the range encodes |
| Utf8.PrefixAfterBom | tests/check_text_integrity.mjs:252-264 | After a leading BOM the valid prefix is at least three bytes long and what follows the BOM is still well formed |
| Utf8.InvalidUtf8Finding | tests/check_text_integrity.mjs:259-264 | On malformed bytes the scanner's finding has the first invalid offset and the number of scalars before it, without a leading BOM; the count never throws |
| TextOffsets.ResolveSignatureOffsets | tests/check_text_integrity.mjs:217-241 | The one-pass resolver throws exactly when some index is outside the text or splits a surrogate pair; else each occurrence gets the byte base plus the UTF-8 length of its prefix, and the character count of its prefix |
| TextOffsets.ScanCharacters | tests/check_text_integrity.mjs:273-288 | The character loop over the decoded text reports, once each and in order, exactly the characters that mean something: U+FEFF, carriage return, and controls without tab and line feed, zero-width, bidirectional and interlinear controls, noncharacters (U+FDD0 to U+FDEF and the last two of each of the 17 planes) and U+FFFD; each with its byte and character offset |
| TextOffsets.OneCharacter | tests/check_text_integrity.mjs:38-50 | For a text of one character each kind of finding is reported if and only if the character has its meaning, and nothing is reported if it has none |
| TextOffsets.PlainTextIsClean | tests/check_text_integrity.mjs:38-50 | A text of tabs, line feeds and U+0020 to U+007E has no finding |
| TextOffsets.FindingsPointAtBytes | tests/check_text_integrity.mjs:273-288 | A TXT002, TXT003 or TXT004 offset points at the bytes that encode the reported character |
| TextOffsets.FlaggedIsFound | tests/check_text_integrity.mjs:276-285 | Every flagged character of the text is reported |
| TextOffsets.BoundaryIsCharacter | tests/check_text_integrity.mjs:233-240 | The scalar boundaries of a decoded text are exactly the starts of its characters and its end |
| TextOffsets.OffsetsOfCharacter | tests/check_text_integrity.mjs:217-241 | The specification offsets at the n-th character are n and the bytes that precede it in the file |
| TextOffsets.DecodesExactlyWellFormed | tests/check_text_integrity.mjs:255-272 | Decoding with BOM removal succeeds exactly on well-formed bytes |
| Mojibake.SignaturesAreSearchable | tests/check_text_integrity.mjs:28-36 | No signature contains a line feed, a surrogate or a border, so its matches cannot overlap |
| TextLaws.SignaturesAreMisread | tests/check_text_integrity.mjs:28-36 | The seven signatures are the UTF-8 bytes of U+2014, U+2013, U+2192, U+2265, U+00B7, U+00A7 and U+FEFF read as Windows-1252 |
| Mojibake.MatchesDoNotOverlap | tests/check_text_integrity.mjs:296-314 | Two matches of a border-free signature are at least its length apart |
| Mojibake.SearchLine | tests/check_text_integrity.mjs:297-314 | The search that jumps over each hit finds all matches on a line, in order |
| Mojibake.FindOccurrences | tests/check_text_integrity.mjs:290-321 | Exactly the matches of all signatures in the text, each once, with its true line, rank on the line and line digest |
| TextLaws.LineOfPosition | tests/check_text_integrity.mjs:291-296 | A place on a line between line feeds has that line's text, and one more than the line feeds before it as its number |
| TextLaws.RankIsCount | tests/check_text_integrity.mjs:299-303 | The rank of a match counts the matches that start before it on its line |
| Mojibake.OccurrenceIsBoundary | tests/check_text_integrity.mjs:303-322 | A match starts at a scalar boundary, so the resolver never throws on the scanner's own occurrences |
| Mojibake.OccurrencePointsAtBytes | tests/check_text_integrity.mjs:303-322 | A match in the decoded text lies over the bytes that encode its signature |
| Mojibake.ExhaustiveKeysAreUnique | tests/check_text_integrity.mjs:303-312 | Signature, line and rank name at most one occurrence of a file |
| TextScan.LocateOccurrences | tests/check_text_integrity.mjs:290-322 | Search and resolution together: every match of every signature is reported and gets its offsets; the resolver's error cannot occur |
| TextScan.FindingPointsAtSignature | tests/check_text_integrity.mjs:303-349 | A TXT006 byte offset points at the bytes of the signature and its character offset at the signature's characters |
| MojibakeExceptions.PrepareGlobalExceptions | tests/check_text_integrity.mjs:781-820 | An exception takes part exactly when it passes the field checks, is unrepeated, and is for a selected text file; the findings are, without repetition, exactly the faults of each exception (the failed field check, earlier twin, unselected path, binary target); the list of each path holds exactly its own |
| MojibakeExceptions.ApplyExceptions | tests/check_text_integrity.mjs:324-344 | For one file: suppressed occurrences are exactly the covered ones, used exceptions exactly those that cover one, as many of the one as of the other, and every unused one has its reason |
| TextLaws.TakingPartMeans | tests/check_text_integrity.mjs:781-820 | An exception takes part exactly if its fields pass, its file is selected and not binary, and no other such exception agrees with it in signature, path, line and occurrence |
| TextLaws.ReasonsMean | tests/check_text_integrity.mjs:326-341 | The reason for an unused exception is exactly the first of signature, line, rank and digest by which it differs from all occurrences of its file |
| RepositoryScan.ScanRepository | tests/check_text_integrity.mjs:851-882 | From the bytes of all files: over decoded non-binary files, occurrences = TXT006 findings + used exceptions; TXT006 findings are exactly the uncovered occurrences, with their offsets; TXT007 findings are, without repetition, exactly the faults of the policy and the unused exceptions with the reason their file gives; each non-binary file has exactly one report of the rest: its first invalid byte, leading mark, flagged characters and missing final line feed |
| TextLaws.FinalLineFeed | tests/check_text_integrity.mjs:249-272 | The final line feed is missing exactly from nonempty files whose last byte is not 10, and is missed at their end |
| RepositoryScan.ReportsPointAtSignatures | tests/check_text_integrity.mjs:345-350 | Every TXT006 finding of the repository scan points at the bytes of its signature in its file, and numbers its characters |
| RepositoryScan.ReportedUnlessExcused | tests/check_text_integrity.mjs:345-350 | In a scanned file a match is reported if and only if no exception that takes part covers it |
| RepositoryScan.CleanMeansPaired | tests/check_text_integrity.mjs:851-882 | Without TXT006 and TXT007 there are as many occurrences as exceptions, every exception takes part and covers one, and every occurrence is covered |
| RepositoryScan.TruthfulIsFound | tests/check_text_integrity.mjs:290-321 | A description of a match is true if and only if the search reports it |
| TextDecoder.DecodeAllInverts | tests/check_text_integrity.mjs:255-258 | Decoding gives a text if and only if the bytes are its encoding |
| TextDecoder.TextIsDecoded | tests/check_text_integrity.mjs:255-272 | A file decodes exactly if it is well-formed UTF-8, to the text whose encoding follows its leading mark |
| NulRecords.ParseNulRecords | tests/check_text_integrity.mjs:488-507 | Accepts exactly what nonempty NUL-free records print, each with a NUL after it (and nothing at all only if allowed), and returns those records |
| NulRecords.PrintIsInjective | tests/check_text_integrity.mjs:488-507 | Records that print a beginning of what others print are a beginning of them |
| IndexEntries.ParseRecordInvertsPrint | tests/check_text_integrity.mjs:528-535 | Reading a record gives mode, identity, stage and path bytes if and only if they print to it |
| IndexEntries.ParseIndexEntries | tests/check_text_integrity.mjs:517-546 | Accepts exactly nonempty lists of stage-zero records with a known mode, a nonzero identity and pairwise different decodable paths; the entries come back strictly sorted by path |
| IndexEntries.PrintedListingIsRead | tests/check_text_integrity.mjs:517-546 | Whatever the parser answers on what such entries print, in any order, is exactly these entries, strictly sorted by path |
| IndexEntries.SortedIsDetermined | tests/check_text_integrity.mjs:545 | A list strictly sorted by path is determined by its members, so the result does not depend on the input order |
| GitLaws.RecordIsFile | tests/check_text_integrity.mjs:528-543 | A record is accepted exactly if it is 100644 or 100755, a space, 40 or 64 hexadecimal digits that are not all zero, a space, a zero, a tab and a readable path; it is read as these |
| GitLaws.ListingIsRead | tests/check_text_integrity.mjs:517-546 | The listings that are accepted are exactly the NUL-terminated records of one or more such files with different paths; they come back with their modes and identities in the order of their paths |
| GitLaws.LessIsPrecedes | tests/check_text_integrity.mjs:545 | The order is that of the first differing unit, or of the shorter text |
| Decimals.CanonicalIsDec | tests/check_text_integrity.mjs:590-592 | A canonical decimal is the print of its value |
| Decimals.DecIsCanonical | tests/check_text_integrity.mjs:590-592 | The print of a number is canonical and has its value |
| Decimals.SafeIntegersAreShort | tests/check_text_integrity.mjs:568-575 | No safe integer prints longer than the largest one, which has sixteen digits |
| BatchCheck.ParseBatchCheck | tests/check_text_integrity.mjs:577-600 | Accepts exactly the canonical lines `oid blob size` in entry order with safe sizes, for at least one entry, and returns the sizes |
| BatchCheck.BatchCheckMaxBuffer | tests/check_text_integrity.mjs:568-575 | Returns the length of the longest acceptable answer, or fails exactly when that is not a safe integer or exceeds the largest buffer |
| BatchCheck.CheckedBatchBytes | tests/check_text_integrity.mjs:560-566 | Adds exactly, and fails exactly outside the safe range or the largest buffer |
| BatchCheck.AnswersFit | tests/check_text_integrity.mjs:568-600 | Every acceptable answer fits the computed buffer |
| BatchCheck.BufferIsTight | tests/check_text_integrity.mjs:568-575 | Some acceptable answer needs the whole buffer |
| BatchCheck.ReadIndexBlob | tests/check_text_integrity.mjs:608-629 | Accepts exactly the header, a body of the expected size and a line feed, when that is within the safe range; returns the body; the accepted output has exactly the computed buffer length |
| GitLaws.AnswersAreLines | tests/check_text_integrity.mjs:577-606 | An acceptable answer is, for each identity in turn, the identity, the word blob between spaces, a size of at most 9007199254740991 in canonical digits and a line feed |
| GitLaws.BodyIsFramed | tests/check_text_integrity.mjs:608-629 | A printed blob is such a line, the body and a line feed |
| GitLaws.LongestIsRoom | tests/check_text_integrity.mjs:568-575 | The buffer has for each identity its length and 23 bytes |
| AsciiEscape.AsciiEscape | tests/check_text_integrity.mjs:100-110 | The loop prints the concatenated escapes of the characters |
| AsciiEscape.EscapeIsInjective | tests/check_text_integrity.mjs:100-110 | Different texts print differently |
| AsciiEscape.EscapeIsPrintable | tests/check_text_integrity.mjs:100-110 | Only printable ASCII is printed |
| AsciiEscape.EscapesArePrefixFree | tests/check_text_integrity.mjs:100-110 | No character's escape starts another's, so a print can be taken apart in one way only |
| TextLaws.EscapeMeans | tests/check_text_integrity.mjs:100-110 | A backslash is doubled, printable ASCII stands for itself, and all else is written with four hexadecimal digits, or in braces with five or six |
| Headings.HeadingSections | tests/check_docs_quality.mjs:515-539 | The stack pass equals the quadratic specification: each heading line gets one section, which is closed once, at the first later heading of the same or a shallower level, else at the end of the text |
| Headings.SectionsAreLaminar | tests/check_docs_quality.mjs:515-539 | Two sections are disjoint or nested, and a nested one belongs to a deeper heading |
| Headings.EndIsInside | tests/check_docs_quality.mjs:515-539 | A section ends after its heading line and inside the text (its body start can be one past the end of the text) |
| Headings.EndIsDetermined | tests/check_docs_quality.mjs:515-539 | The end of a section is determined by the headings |
| Headings.EveryHeadingListed | tests/check_docs_quality.mjs:522-531 | Every heading line has a section |
| HeadingLines.HeadingIsPreferred | tests/check_docs_quality.mjs:522 | A line is a heading exactly if it can be read as one to six number signs, blanks, a title and closing signs between blanks; level and title are those of the reading with the most signs, then the most blanks, then the shortest title |
| Brackets.ClosingBracketMap | tests/check_docs_quality.mjs:250-270 | Exactly the standard matching of unescaped brackets: `a` maps to `b` if and only if `b` is the first place where the bracket opened at `a` is closed |
| Brackets.PairsAreNested | tests/check_docs_quality.mjs:250-270 | Two matched pairs are nested or disjoint |
| Brackets.UnmatchedClose | tests/check_docs_quality.mjs:267-268 | A closing bracket has a partner if and only if some bracket is open before it |
| Brackets.PartnersAreUnique | tests/check_docs_quality.mjs:268 | No bracket, opening or closing, is in two pairs |
| BracketLaws.PartnersEncloseBalanced | tests/check_docs_quality.mjs:250-270 | Two brackets are partners if and only if one opens, the other closes, an even number of backslashes precedes each, and the text between them is balanced by the grammar of balanced text |
| Brackets.IsEscaped | tests/check_docs_quality.mjs:203-207 | The backward scan returns the parity that the matcher's running backslash count has at the same index |
| CodeSpans.FindCloser | tests/check_docs_quality.mjs:234-241 | The search for the closing run returns the first later run of exactly the same length; without one it returns the line length, not -1, exactly when it steps off the end of the line |
| CodeSpans.MaskLine | tests/check_docs_quality.mjs:227-246 | Blanks exactly the code spans of the line; a run that dangles blanks the rest of the line and as many units past its end as the run is long |
| CodeSpans.MaskIsPointwise | tests/check_docs_quality.mjs:227-246 | Each unit is kept or blanked; the length is kept if and only if no unclosed run dangles, and otherwise only blanks are added |
| CodeSpans.SpansAreCode | tests/check_docs_quality.mjs:228-245 | A blanked span runs from an unescaped run to the first later run of exactly its length, inside the line |
| CodeSpans.NoCodeIsMissed | tests/check_docs_quality.mjs:228-245 | Every unescaped backtick is in a blanked span or in an unclosed run |
| CodeSpans.OnlyTrailingTicksDangle | tests/check_docs_quality.mjs:234-241 | A line that does not end in a backtick keeps its length |
| CodeSpans.TrailingRunGrows | tests/check_docs_quality.mjs:234-245 | A letter and n backticks become 2n + 1 units: the mask is not length preserving |
| CodeSpans.SpansAreInOrder | tests/check_docs_quality.mjs:228-245 | The blanked spans stand in order and do not overlap |
| MarkdownMasks.MaskMarkdownCode | tests/check_docs_quality.mjs:209-248 | The lines are masked block by block: a block is blank from a line that opens it (at most three spaces, three or more backticks or tildes, no backtick after backticks) to the first later line of at most three spaces, at least as many of the same unit and blanks, or to the end; what follows a block, and what follows a line that opens none, is masked as a text of its own; lines outside blocks are masked singly |
| MarkdownMasks.CodeIsBlocks | tests/check_docs_quality.mjs:209-248 | The line-by-line fence state and the division into blocks by the shape of lines give the same masks, for all lines |
| CodeBlocks.EndingLine | tests/check_docs_quality.mjs:216-218 | A line of i spaces, m backticks or tildes and any spaces and tabs ends a block of n units if and only if i is at most 3, the unit is the same and m is at least n |
| CodeBlocks.TextEndsNoBlock | tests/check_docs_quality.mjs:216-218 | A line with any other unit on it ends no block |
| CodeBlocks.OpeningLine | tests/check_docs_quality.mjs:222-224 | A line of i spaces, n backticks or tildes and a rest that goes on otherwise opens a block, of exactly that unit and length, if and only if i is at most 3, n at least 3, the rest has no line terminator and, behind backticks, no backtick |
| CodeBlocks.TextOpensNoBlock | tests/check_docs_quality.mjs:222-224 | A line that begins with neither after its spaces opens no block |
| CodeBlocks.BlockOfTwo | tests/check_docs_quality.mjs:209-226 | After an opening line, a line that ends the block is blank and the others are masked as if they stood alone; if it does not end it and no later line does, all are blank |
| MarkdownMasks.CodeMaskIsPointwise | tests/check_docs_quality.mjs:209-248 | Line by line each unit is kept or blanked and no line feed appears; a line keeps its length if and only if it is fenced or no unclosed run dangles on it |
| MarkdownMasks.OffsetsKeptUntilGrowth | tests/check_docs_quality.mjs:209-248 | A line keeps its offset under the mask if and only if no earlier line grows |
| MarkdownMasks.CommentsAreComments | tests/check_docs_quality.mjs:507-509 | A masked comment runs from its opening to the first ending after it |
| MarkdownMasks.NoCommentIsMissed | tests/check_docs_quality.mjs:507-509 | An opening that has an ending after it is masked |
| MarkdownLaws.CommentsAreBlank | tests/check_docs_quality.mjs:507-509 | Blank are exactly the units, line feeds aside, of the comments on the one way through the text that takes each comment whole, from its four opening units to the first three ending ones after them |
| MarkdownMasks.BlankSections | tests/check_docs_quality.mjs:551-553 | Blanking the sections one by one from the last, nested ones included, blanks exactly the units in some section, and keeps length and line feeds |
| MarkdownMasks.MaskExactHistorical | tests/check_docs_quality.mjs:547-555 | The visible text with exactly the dated sections blank |
| MarkdownMasks.MaskExactHistoricalKeepFences | tests/check_docs_quality.mjs:557-565 | The comment-masked text, blank exactly at the offsets of the dated sections found on the visible text |
| MarkdownMasks.VisibleIsDetermined | tests/check_docs_quality.mjs:511-513 | The visible text is determined by the text, so what is said of one result holds of every one |
| MarkdownMasks.HistoricalMaskIsDetermined | tests/check_docs_quality.mjs:547-555 | The masked text is determined by the text, the headings and the title |
| MarkdownLaws.DatedLinesAre | tests/check_docs_quality.mjs:547-555 | A line of the visible text is blanked if and only if a heading with the title stands at it or before it with no heading of its level or a shallower one between; every other line stays |
| MarkdownMasks.DatedLinesGo | tests/check_docs_quality.mjs:547-555 | On the visible text dated sections go as whole lines, and all other lines stay |
| MarkdownMasks.DatedLinesGoUntilGrowth | tests/check_docs_quality.mjs:557-565 | With the fences kept, the same holds for each line that follows no line that grows |
| MarkdownMasks.PlacesKept | tests/check_docs_quality.mjs:557-565 | The offsets found on the visible text fit the comment-masked text at a line if and only if no earlier line grows |
| MaskedPlaces.SectionFitsIffNothingGrows | tests/check_docs_quality.mjs:557-565 | A section found on the visible text covers exactly its own lines in the text if and only if no line grows before its heading, or before the heading that closes it |
| MaskedPlaces.DatedHeadingShifts | tests/check_docs_quality.mjs:557-565 | After a line of a letter and n backticks, the first n units of a dated heading are not blanked |
| MaskedPlaces.DatedHeadingStays | tests/check_docs_quality.mjs:549-565 | The repository's own dated heading is not blanked at all after a letter and at least 54 backticks; after one backtick its mark stays |
| DmsLock.BodyIsGuarded | skills/ipc/scripts/codex_ipc_db_read.py:119-141 | For any number of readers and owners: in the guarded body the reader's handle holds exactly one shared lock, and nobody holds the byte exclusively |
| DmsLock.ClosedLeavesNothing | skills/ipc/scripts/codex_ipc_db_read.py:128-141 | However a reader ends, its closed handle holds no lock |
| DmsLock.AdmissionHadAWitness | skills/ipc/scripts/codex_ipc_db_read.py:128-132 | A reader is admitted only past a probe at which another handle held the byte |
| DmsLock.ProbeAdmitsWithoutOwner | skills/ipc/scripts/codex_ipc_db_read.py:121-128 | That other handle may be another reader's momentary probe: a reader reaches its body in a run in which no owner ever holds the byte |
| DmsLock.LoneProbeFindsOwners | skills/ipc/scripts/codex_ipc_db_read.py:128-132 | When no other reader holds the byte at the probe, a reader can be admitted if and only if an owner holds it, and can refuse by taking it if and only if none does |
| DmsLock.AdmissionMeansOwner | skills/ipc/scripts/codex_ipc_db_read.py:119-132 | The exact condition, in every state: each admission of a probing reader happens with an owner holding the byte if and only if an owner holds it or no other reader does |
| DmsLock.RunKeepsInv | skills/ipc/scripts/codex_ipc_db_read.py:102-141 | The lock invariant holds in every reachable state of every interleaving |
| LockLaws.ProbeIsGranted | skills/ipc/scripts/codex_ipc_db_read.py:128 | A probe can be granted if and only if nobody holds the byte |
| LockLaws.ProbeIsRefused | skills/ipc/scripts/codex_ipc_db_read.py:109-110 | A probe can be refused because of a handle if and only if that handle is another one and holds the byte |
| LockLaws.ProbeCanBeReleased | skills/ipc/scripts/codex_ipc_db_read.py:129-130 | A granted probe can be given back, which leaves the byte free |
| LockLaws.SharedIsGranted | skills/ipc/scripts/codex_ipc_db_read.py:131-132 | An admitted reader can take the shared lock if and only if nobody holds the byte exclusively |
| LockLaws.BodyCanBeReleased | skills/ipc/scripts/codex_ipc_db_read.py:141 | A reader can leave its body with its lock given back and every other lock as it was |
| LockLaws.OwnersAreGranted | skills/ipc/scripts/codex_ipc_db_read.py:102-111 | A handle gets the byte shared if and only if no other has it exclusively, and exclusively if and only if no handle has it |
| LockLaws.CallLeaves | skills/ipc/scripts/codex_ipc_db_read.py:102-141 | Nothing else can come of a call: other handles keep their locks and other readers their places, and what its own handle has follows from where it goes |
| GuardedDatabase.LocksRun | skills/ipc/scripts/codex_ipc_db_read.py:119-185 | Every step of any number of interleaved guarded reads, owners and process deaths is one step of the lock system, or none |
| GuardedDatabase.BlockIsGuarded | skills/ipc/scripts/codex_ipc_db_read.py:151-183 | In its block a read has all its resources, and on a database with a log file its handle holds exactly one shared lock and nobody an exclusive one |
| GuardedDatabase.UnwoundHoldsNothing | skills/ipc/scripts/codex_ipc_db_read.py:128-151 | A read that has unwound, on whatever path it left, holds nothing on the byte |
| GuardedDatabase.LeavingOnlyGivesBack | skills/ipc/scripts/codex_ipc_db_read.py:151-185 | A read that leaves only gives back, last taken first, and never enters again |
| GuardedDatabase.LockIsInnermost | skills/ipc/scripts/codex_ipc_db_read.py:151-162 | In every reachable state, whatever a read holds on the byte it holds under its three open files |
| LockLaws.BlockHoldsAll | skills/ipc/scripts/codex_ipc_db_read.py:151-183 | These resources are the database, its log, its index and the lock, or the database and the handle that keeps writers out |
| LockLaws.BlockHadAWitness | skills/ipc/scripts/codex_ipc_db_read.py:128-132 | The lock of a guarded read was taken past a probe at which another handle held the byte |
| LockLaws.CanUnwind | skills/ipc/scripts/codex_ipc_db_read.py:151-187 | From every state of every run a read that leaves can give back all it has, with nothing left on the byte and nobody else touched |
| LockLaws.CanEnter | skills/ipc/scripts/codex_ipc_db_read.py:151-187 | From every state of every run a read that has not failed can enter its block without anybody else moving, if another handle holds the byte shared and nobody exclusively |
| SectionMask.MaskGitContextSections | tests/test_git_context_bound.sh:447-504 | Succeeds exactly when no line contains a sentinel and the payload has the three target headings once each, in order, each with a nonblank body; the output is the payload with each body replaced by its sentinel and its trailing blank lines |
| SectionMask.SameMaskSameOutside | tests/test_git_context_bound.sh:455-501 | Two payloads have the same mask if and only if they agree line for line outside the three bodies, headings and trailing blank lines included |
| SectionMask.AcceptedIsAssembled | tests/test_git_context_bound.sh:455-501 | A payload can be taken apart into outside lines and sections in one way only |
| SectionMask.AssembleOfParse | tests/test_git_context_bound.sh:478-493 | Taking a payload apart and assembling the parts gives it back |
| SectionMask.ParseOfAssemble | tests/test_git_context_bound.sh:478-493 | Assembling well-formed parts and taking the result apart gives them back |
| SectionMask.OneSentinelEach | tests/test_git_context_bound.sh:447-452 | After the first check each sentinel occurs exactly once in the output, so the counts after the automaton are superfluous |
| SectionLaws.MaskedMeansLaidOut | tests/test_git_context_bound.sh:447-504 | Exactly those payloads are masked that hold none of the three sentinels and consist of lines without a target heading and, under each heading in turn, a body whose last line of text is followed by empty lines and then by lines from the next heading on that are no target; headings and sentinels written out |
| SectionLaws.LayoutIsMasked | tests/test_git_context_bound.sh:467-493 | The mask of such a payload is the same layout with each body up to its last line of text replaced by its own sentinel |
| SectionLaws.UnmarkedIsNoSentinel | tests/test_git_context_bound.sh:448-452 | The first check passes exactly if no line is some text, one of the three sentinels and some text |
| SectionMask.Masker.FlushBody | tests/test_git_context_bound.sh:466-476 | Fails exactly on a body without text, else writes the sentinel and exactly the trailing blank lines |
| SectionMask.Masker.ReadLine | tests/test_git_context_bound.sh:478-496 | One line keeps the promise of what the rest of the payload still decides and writes; a failure means that the payload is not acceptable |
| SectionMask.Masker.Finish | tests/test_git_context_bound.sh:497-502 | At the end the automaton has failed exactly if the payload is not acceptable, else its output is the mask |

## Left out

- Text of the classifier's errors: the last failure wins there, so only the decision and the output set are modelled.
- Numbers in process rows: pids, parents and Windows ids are natural numbers; two spellings of one number (leading zeros), which awk keys apart, are not distinguished. A creation time is its twenty digits.
- The POSIX branch of `owned_process_rows`: its walk is cut at 64 steps, so it has no ancestry property of this strength.
- Process enumeration, PowerShell and CIM queries, `/proc` reads and wall-clock timing: their results are arbitrary inputs.
- EvidenceCapture.RunDir.Sample: the eleven collection steps of the Windows branch may each fail in either way; the error streams of the commands and the endpoint logs are only emptied. The POSIX stages are the same machine with fewer steps.
- EvidenceCapture.RunDir.CountOwnedNode: the rows of the output are an input; `RunDir.CountFromRows` is the same with the classifier's own rows.
- IdentityCleanup.RowKeepsInv: the .NET exceptions are modelled by what they leave behind: a dropped row, a failed row, or the next step.
- MojibakeExceptions.PrepareGlobalExceptions: which field check an exception fails first, if any, is an input.
- RepositoryScan.ScanRepository: it returns its findings by kind; the original sorts them into one list. SHA-256 of a line is an arbitrary function.
- The standalone mode of the scanner with its own exception list.
- IndexEntries.ParseIndexEntries: decoding and validating path bytes is one arbitrary function; the library sort is an insertion sort with the same order.
- BatchCheck.ReadIndexBlob: the output of Git is an arbitrary input; that the child process is stopped beyond the buffer is not modelled.
- `parseAttributes`, `readWorktreeFile`, `assertNoIntentToAdd` and the validator's own identity check: they are plumbing around the framing that is modelled.
- Headings.HeadingSections: which lines are headings is an arbitrary function of the line; `HeadingLines.HeadingOf` is the one of the original.
- MarkdownMasks.MaskExactHistorical: the title of dated sections is a parameter.
- `parseInlineCandidate` and the link checks behind the bracket matching.
- GuardedDatabase.BlockIsGuarded: the checks between two acquisitions may pass or fail at any time, whatever the files hold; SQLite is the block.
- SectionMask.MaskGitContextSections: `normalize_payload` and the comparison of the two masked files are `sed` and `cmp`.
- The documentation policies, manifests, installers, self-tests and scripts of the repository: fixed strings, tool pipelines and input/output.
