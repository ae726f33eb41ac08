# Verified models of Artifex

This project models the parts of Artifex whose correctness is hard to see from the code and proves
what they promise. Nothing here is executed by Artifex; the Dafny verifier checks every statement
(`dafny verify dfyconfig.toml`).

The modules follow the program:

- **Managed service.** `InstanceLock` is the single-instance lock as a protocol of small steps
  (create, write, read owner, check liveness, unlink) with any number of instances and crashes between
  any two steps. `InstanceLockObject` is the guard object, proved to drive that protocol. `ManagedHost`
  is one host with its starting thread, any number of `stop` callers, the transport thread, its clients
  and the heartbeat thread; `ManagedService` is a world of hosts sharing one state root; `ThreadOrder`,
  `HostShutdown`, `ShutdownEnds` and `StalledShutdown` are about its threads and whole runs of the
  shutdown. `LineReader` and `PrivateAcl` are the two self-contained kernels of the same file.
- **Release builder and verifier.** `Csv`, `NameOrder`, `ArchivePlan`, `ArchiveBounds`, `WheelNames`,
  `WheelPlan`, `WheelVerifier`, `ReleaseWheel` and `ReleaseSdist` are the two halves that rewrite and
  check a wheel or a source distribution, and `ReleaseContents` says what these hold under their own
  names. `AuditLog` and `EvidenceLedger` are the append-only checks.
- **Traceability.** `RequirementKeys`, `ArchitectureNames`, `TraceScan`, `Traceability`,
  `SpellingExample`, `ProjectEntities`, `TraceAuthority` and `TraceClosure` are the checker of the five
  traceability maps and of the authority behind them.
- **Kernels.** `MilestoneDag`, `LeftmostRewrite` with `SecretScrub`, `Newlines`, and the dashboard
  deployment in `MarkerBlocks`, `HostRecords`, `Dashboards`, `DashboardDeploy`, `OutsideText`.

`AsciiText`, `ByteText`, `Counting`, `Options` and `NameOrder` are what several of them share.

Hashing, base64, JSON and UTF-8 conversion of RECORD text are function parameters constrained only by
the laws the proofs need (a round trip, no carriage return in base64).

## Where the code does not meet the obvious property

- *At most one contender between its stale read and its unlink* is not enough for mutual exclusion. One
  contender can read a live owner; the owner releases and exits; a successor acquires; the contender now
  finds the old owner dead and unlinks the successor's file (`InstanceLock.OneRecovererBreaksExclusion`).
  It is enough when every owner read on a first attempt is already dead
  (`InstanceLock.OneRecovererOfDeadOwnersIsSafe`). The exact condition over a run is that no recovery
  unlinks the file of a live claimant
  (`InstanceLock.ExclusionIffCleanRecovery`, `InstanceLock.SafetyIffCleanRecovery`); a checkable
  scheduling rule that guarantees it is that no step takes the file away while another live instance is
  between reading the owner and unlinking (`InstanceLock.SerialRemovalIsSafe`, for whole hosts
  `ManagedService.SerialRunIsClean`).
- A controlled shutdown need not come to an end. The transport thread serves one request at a time and
  sets no timeout on reading it or on writing the response, and `stop` waits for that thread while it
  holds the lifecycle lock. A client that connects and stays silent stalls it
  (`StalledShutdown.SilentClientStallsStop`). With a `stop` pending the host can move if and only if it is
  not stalled in this way (`HostShutdown.PendingStopMovesIffNotStalled`), and only the client can end the
  stall (`StalledShutdown.ClientEndsStall`).
- The client's line reader takes whatever arrives in the chunk that brings the first newline, so bytes
  after a line can change its verdict. Its outcome is independent of the chunks exactly when nothing
  follows the first newline or no newline comes within the limit (`LineReader.CutMattersOnlyAfterLine`,
  `LineReader.TwoCutsDiffer`).
- The DACL validator judges innermost parenthesised groups, not entries. An entry with a whole entry in
  parentheses, such as a conditional one, is passed over in favour of the inner one
  (`PrivateAcl.NestedEntryAccepted`, `PrivateAcl.ConditionalEntryAccepted`). What it judges are the written
  entries if and only if none of them has a parenthesis, and then acceptance means what it should
  (`PrivateAcl.WrittenDaclJudged`).
- A schema at the repository root and one inside the package have the same name in the wheel. The
  finalised wheel is then refused unless both have the same bytes (`ReleaseWheel.FinalizedWheelAccepted`,
  `ReleaseWheel.TwoSchemasRefused`). Likewise a repository that itself has `PKG-INFO` or
  `artifex-release-provenance.json` at its root gets a source distribution that is refused, unless the
  bytes agree (`ReleaseSdist.FinalizedSdistAccepted`, `ReleaseSdist.CommittedPackageInfoRefused`).
- The architecture map must spell each component in one way across all its entries, although owners are
  compared only after normalisation (`Traceability.PassesIffMapsAreRight`,
  `SpellingExample.TwoSpellingsRefused`).
- The LF and the CRLF checkout of a fixture agree exactly when the text has no CRLF pair of its own
  (`Newlines.CheckoutsAgree`, `Newlines.PairDisagrees`).
- Deployments do not leave all text outside their blocks alone: reading and rewriting the Caddy file as
  text turns CRLF and CR line ends into LF (`OutsideText.DeploymentChangesWindowsText`). The outside text
  is kept, up to trailing white space, if and only if it has no carriage return
  (`OutsideText.OutsideTextKeptIff`); the text of the DNS file is kept if and only if its only line breaks
  are line feeds (`OutsideText.DnsTextKeptIff`).

## Model

| member | source | states |
|---|---|---|
| InstanceLock.StepKeepsFileNamesClaimant | src/artifex/managed_service.py:181-223 | One step from a state where the file names every live claimant leads to such a state if and only if it is not a recovery that unlinks a live claimant's file. |
| InstanceLock.SafetyIffCleanRecovery | src/artifex/managed_service.py:181-223 | Over every run of any number of instances with crashes: the file names its live claimants in all states if and only if no recovery of the run removes the file of a live claimant. |
| InstanceLock.ExclusionIffCleanRecovery | src/artifex/managed_service.py:181-223 | Mutual exclusion itself: a run and all its one-step continuations keep it if and only if no recovery of the run removes the file of a live claimant. |
| InstanceLock.RemovalBreaksExclusion | src/artifex/managed_service.py:191-206 | Right after any recovery that removes a live claim, the recoverer can create the file, and then there are two live claimants. |
| InstanceLock.CleanRunExcludes | src/artifex/managed_service.py:181-223 | In every state of a clean run there is at most one live claimant, a written lock names the live holder, and a release that unlinks removes its own lock only. |
| InstanceLock.SerialRemovalIsSafe | src/artifex/managed_service.py:190-206 | If no step takes the file away while another live instance is between its owner read and its unlink, every recovery is clean and exclusion holds in every state. |
| InstanceLock.OneRecovererOfDeadOwnersIsSafe | src/artifex/managed_service.py:190-206 | At most one contender between its owner read and its unlink is enough when every owner read on a first attempt is already dead: every recovery is clean and exclusion holds in every state. |
| InstanceLock.TwoRecoverersBreakExclusion | src/artifex/managed_service.py:191-206 | A run that has a state in which the predecessor is dead, its file is still there and two contenders have both read it as owner on their first attempt, and that ends with two live holders. |
| InstanceLock.OneRecovererBreaksExclusion | src/artifex/managed_service.py:191-206 | A run with never more than one contender in its recovery window that still ends with two live holders. |
| InstanceLock.StepFollowsCode | src/artifex/managed_service.py:181-223 | Every enabled step of an instance goes to a place that follows in the code: a refusal only after the file was found or could not be written or verified, a second attempt only after an unlink, an unlink on release only of its own file. |
| InstanceLock.BoundedSteps | src/artifex/managed_service.py:181-223 | In every run, whatever the other instances do, an instance takes at most eleven steps for acquiring and releasing together. |
| InstanceLockObject.Guard.Acquire | src/artifex/managed_service.py:181-215 | The outcome, the `owned` flag and the file after an uninterrupted call, by file and liveness before it, including the unreadable, live-owner and failed-verification refusals; the call is a sequence of enabled protocol steps. |
| InstanceLockObject.Guard.Release | src/artifex/managed_service.py:217-223 | Nothing is owned afterwards, and the file is removed exactly when it was owned and is still the own one. |
| InstanceLockObject.DrivesOneMore | src/artifex/managed_service.py:181-223 | Appending an enabled step to a sequence of protocol steps gives a sequence of protocol steps. |
| ManagedHost.StepKeepsInv | src/artifex/managed_service.py:292-414 | Every step of every thread of a host keeps the host invariant (lifecycle lock, single shutdown body, thread stages, lock stage, final state). |
| ManagedHost.StepKeepsPublication | src/artifex/managed_service.py:281-414 | Every step keeps what the host has published: the last value of a running host is Running, the value its heartbeat is about to write is Running, after the shutdown body was entered the heartbeat writes at most once more, and the body sets the stop events in order. |
| ThreadOrder.ThreadsFollowCode | src/artifex/managed_service.py:292-432 | Each step of a host moves the thread whose step it is to a place that follows in its code and leaves all others where they are, keeps the reasons of the callers, and clears neither the shutdown event nor a stop flag; a renewal takes down whether the host runs. |
| ThreadOrder.ErrorsCanCome | src/artifex/managed_service.py:296-414 | Errors can come exactly where the code can raise: in a start between the lock and the published state, in the last two file operations of a stop, in dispatching a request, and in a renewal. |
| ManagedService.WorldRefinesLock | src/artifex/managed_service.py:292-414 | Every step of the world of hosts is a step of the lock protocol or leaves the protocol state alone. |
| ManagedService.SerialRunIsClean | src/artifex/managed_service.py:190-206 | A run of whole hosts in which no step takes the lock file away while another live instance is in its recovery window is a clean run, so the results on files hold of it. |
| ManagedService.OnlyHolderTouchesFiles | src/artifex/managed_service.py:308-411 | In every clean run each write or delete of token or state file, whether or not it changes the content, is made by the instance that holds the lock and that the lock file names, and no other live instance claims it. |
| ManagedService.ChangesAreTouches | src/artifex/managed_service.py:308-411 | Every step that changes token or state file is one of these writes and deletes. |
| ManagedService.PublishedFilesAreOwn | src/artifex/managed_service.py:281-320 | While a host runs the token file is its own and, once it has written it, the state file says Running; while it has the lock the state file shows the last value it wrote; the token it deletes on stopping is its own. |
| ManagedService.TokenGoneBeforeLockFreed | src/artifex/managed_service.py:399-401 | When a host unlinks its lock the token is already gone, and what it unlinks is its own written lock. |
| HostShutdown.ShutdownBodyRunsOnce | src/artifex/managed_service.py:360-401 | In every state of every run the shutdown body was entered at most once, and once the final state is written it is the last one and carries the winning caller's reason. |
| HostShutdown.FinalStateStays | src/artifex/managed_service.py:383-414 | No step of any thread after the final write changes the history, the winner or its reason; in particular no heartbeat writes. |
| HostShutdown.NothingWrittenAfterFinal | src/artifex/managed_service.py:383-414 | The same over whole runs: from the final write on, history, winner and reason are the same in all later states. |
| HostShutdown.PublishedValues | src/artifex/managed_service.py:281-414 | In every state of every run: all values published before the shutdown body was entered are Running, then follow at most one of the heartbeat and the final one, which is the only one with a reason and the last; a shutdown is requested whenever the heartbeat has ended. |
| HostShutdown.BlockedIffWaits | src/artifex/managed_service.py:342-414 | A thread that is not at its end, nor releasing the lock nor held up by a client, has no step exactly when it waits for another thread. |
| HostShutdown.NoWaitCycle | src/artifex/managed_service.py:342-414 | In no reachable state do threads of a host wait for each other in a cycle, over the two locks, the joins and the server shutdown. |
| HostShutdown.PendingStopMovesIffNotStalled | src/artifex/managed_service.py:360-432 | In every state of every run, with a `stop` call pending on a live host, some thread of the host can take a step if and only if it is not the case that the shutdown body waits for the transport thread, that thread is inside a socket operation only its client can end, and the heartbeat has ended. |
| ShutdownEnds.ShutdownCompletes | src/artifex/managed_service.py:367-432 | Over every stretch of every run with the shutdown body past stopping the server, the threads of the host and its client take fewer than twenty steps; and where no thread of the live host can take one, the host is stalled by its client. So the body returns, fails with an error, or is stalled. |
| ShutdownEnds.StartEnds | src/artifex/managed_service.py:292-340 | In the middle of a start the host always has a step, and each step of the starting thread or of its lock brings it nearer to its end. |
| StalledShutdown.SilentClientStallsStop | src/artifex/managed_service.py:360-421 | A run of one host in which a client connects and sends nothing, and which ends with a pending `stop` and no enabled step of any thread of the host. |
| StalledShutdown.ClientEndsStall | src/artifex/managed_service.py:367-432 | In every stalled state the client has a step, and after it the host can move again. |
| LineReader.Connection.Receive | src/artifex/managed_service.py:916 | `recv` gives the next stretch of the stream, at most as long as asked for and non-empty unless the stream is at its end. |
| LineReader.ReadLine | src/artifex/managed_service.py:913-923 | The reading loop gives the outcome of the specification and never takes more than the limit plus one byte. |
| LineReader.LineComesBackWhole | src/artifex/managed_service.py:913-923 | However a single terminated line is cut into non-empty chunks, the client returns exactly it when it fits and rejects otherwise, and agrees with the server's check; so for streams without a newline within the limit. |
| LineReader.ServerAcceptsLines | src/artifex/managed_service.py:421-426 | The server accepts a stream exactly when its first line fits the limit, and then takes exactly that line. |
| LineReader.CutMattersOnlyAfterLine | src/artifex/managed_service.py:915-923 | The client's outcome is the same for all cuts if and only if no newline comes within the limit or nothing follows the first one. |
| LineReader.TwoCutsDiffer | src/artifex/managed_service.py:915-923 | For every stream with bytes after a line that fits, two cuts with different outcomes. |
| PrivateAcl.Validate | src/artifex/managed_service.py:801-841 | The exact verdict: none found; not protected; wrong number of entries; the first entry that does not grant, unreadable or unexpected; principals incomplete; and accepted otherwise, which is the private list. |
| PrivateAcl.Observe | src/artifex/managed_service.py:819-839 | The loop fails exactly when some entry does not grant, with the failure of the first such entry, and otherwise collects exactly the principals of the entries. |
| PrivateAcl.AcceptedGrantsExactly | src/artifex/managed_service.py:812-841 | An accepted DACL is protected, and of the entries the regular expression finds, its innermost groups, exactly one is an explicit full-control allow entry for the current user and one for LocalSystem, a single one when they coincide, and none is for another principal. |
| PrivateAcl.WrittenReadsBack | src/artifex/managed_service.py:811 | Any list of entries written one after the other is searched to the innermost groups of each entry in order, and these are the written entries if and only if no entry has a parenthesis. |
| PrivateAcl.FieldsReadBack | src/artifex/managed_service.py:821 | Fields without semicolons joined by semicolons split back into themselves. |
| PrivateAcl.SavedDaclFound | src/artifex/managed_service.py:804-807 | In the text of the tool, a line without `D:` and a line with a written list, the list judged is the written one. |
| PrivateAcl.NoDaclMeans | src/artifex/managed_service.py:804-806 | No list is found exactly when every `D:` of the text stands at the end of its line. |
| PrivateAcl.AdministratorMeans | src/artifex/managed_service.py:817 | The user is the built-in administrator exactly when the text behind the last hyphen, or the whole text without one, is 500. |
| PrivateAcl.PairsMean | src/artifex/managed_service.py:830 | The flags are the pairs of characters at even positions. |
| PrivateAcl.WrittenDaclJudged | src/artifex/managed_service.py:801-841 | For every list of entries, flags and user: the list is accepted exactly when its judged entries are as intended; the judged entries are the written ones if and only if no written entry has a parenthesis, and then acceptance is the intended meaning of the list itself. |
| PrivateAcl.IntendedOfWritten | src/artifex/managed_service.py:819-841 | For entries written from six fields without semicolons, the intended meaning in terms of these fields: protected, as many as required principals, each granting, all principals present. |
| PrivateAcl.AliasListIntended | src/artifex/managed_service.py:814-839 | A list that grants the two aliases `SY` and `LA` is as intended exactly when the user is the built-in administrator. |
| PrivateAcl.NestedEntryAccepted | src/artifex/managed_service.py:811-841 | For every ordinary user: a list whose second entry is any fields followed by the user's whole entry in parentheses is accepted although it is not as intended. |
| PrivateAcl.ConditionalEntryAccepted | src/artifex/managed_service.py:811-841 | The concrete input that fails: a conditional entry for everyone whose condition is an entry for the user. |
| Csv.RowsReadBack | scripts/validate_release.py:2158 | Rows of fields without carriage returns, written with minimal quoting, are read back by the CSV reader as the same rows. |
| Csv.FieldWritten | scripts/validate_release.py:2533 | Fields without comma, quote and line feed are written as they are; others in quotes, with each quote doubled and the rest unchanged. |
| Csv.CarriageRowReadsBack | scripts/validate_release.py:2158 | A row that ends in CR and LF is read as the same row; a lone CR inside a line is refused. |
| Csv.LastRowReadsBack | scripts/validate_release.py:2158 | The last row needs no line end, and a carriage return is enough. |
| NameOrder.Sort | scripts/validate_release.py:2534 | A strictly ascending list of exactly the given names. |
| NameOrder.OneList | scripts/validate_release.py:2541 | There is only one such list, so the order of members does not depend on the dictionary. |
| NameOrder.FirstDifferenceDecides | scripts/validate_release.py:2534 | Names that first differ in a character are in the order of these characters. |
| ArchivePlan.FilesOfArchive | scripts/validate_release.py:2477-2480 | Writing a dictionary of files in name order and reading the archive gives the dictionary back. |
| ArchivePlan.DecimalReads | scripts/validate_release.py:2536 | A size is written as a numeral of its value: digits only, no leading zero, and read as a number it is the size. |
| ArchivePlan.NumeralIsDecimal | scripts/validate_release.py:2168 | There is only one such numeral, so comparing it as text compares sizes. |
| ArchivePlan.WrittenRecordFits | scripts/validate_release.py:2532-2538 | The RECORD that is written parses back to a blank row for itself and one row per member, whose digest field is the unpadded hash and whose size field, read as a number, is the length of the content. |
| ArchivePlan.WriteRecord | scripts/validate_release.py:2531-2538 | The loop writes one row per file in name order and the blank row last. |
| ArchivePlan.CopySources | scripts/validate_release.py:2523-2524 | The copying loop lays the packed sources over the files, the later one in the listing winning. |
| ArchivePlan.WriteArchive | scripts/validate_release.py:2539-2545 | The members are the files in name order. |
| ArchiveBounds.SafeMeans | scripts/validate_release.py:1809-1819 | A path is safe exactly when none of the parts between its slashes is empty or a dot part or has a colon or a backslash. |
| ArchiveBounds.TwoMembersBounded | scripts/validate_release.py:1822-1836 | Two members are within bounds exactly when each has a safe name and at most 512 MiB and the names do not differ in case only. |
| WheelNames.ReleaseNamesAreGood | scripts/validate_release.py:2494-2512 | The names of the release: metadata names are distinct, recognised by their suffixes only, and never collide with package names. |
| WheelPlan.Finalize | scripts/validate_release.py:2472-2546 | Finalisation succeeds exactly on an allowed inventory, and the result is the canonical wheel of the candidate whatever the built wheel contained. |
| WheelPlan.FinalizedAgain | scripts/validate_release.py:2515-2522 | The inventory of a finalised wheel is allowed again. |
| WheelVerifier.FinalizedAcceptedIffFit | scripts/validate_release.py:2066-2171 | A finalised wheel is accepted if and only if bounds, naming consistency and the version, schema and provenance contents are in order; names, metadata and RECORD never fail. |
| WheelVerifier.AcceptedIsCanonical | scripts/validate_release.py:2066-2171 | Whatever wheel is accepted has the canonical names, equals the canonical wheel on every file but RECORD and provenance, and has one correct RECORD row per file. |
| WheelVerifier.CheckRecord | scripts/validate_release.py:2158-2171 | The verifier's RECORD loop accepts exactly a RECORD with one fitting row per file and a blank self row; each accepted row states the unpadded hash and, as a number, the length of its file. |
| WheelVerifier.InconsistentRefused | scripts/validate_release.py:2148-2157 | Two sources with one packed name and different contents make the canonical wheel refused. |
| ReleaseWheel.FinalizeWheel | scripts/validate_release.py:2472-2546 | Refused without `pyproject.toml` or on a wrong inventory, otherwise the candidate's canonical wheel. |
| ReleaseWheel.FinalizeTwice | scripts/validate_release.py:2485-2546 | Two built wheels that pass give the same result, and finalising the result changes nothing. |
| ReleaseWheel.ConsistentIffOneSchema | scripts/validate_release.py:2494-2502 | The naming merges two sources only at the schema, so it is consistent exactly when the two possible schemas agree. |
| ReleaseWheel.FinalizedWheelAccepted | scripts/validate_release.py:1986-2171 | The finalised wheel is accepted for the same candidate if and only if the candidate has its project file, the binding has its fingerprint, bounds hold, the two schemas agree, and version file and schema are right. |
| ReleaseWheel.TwoSchemasRefused | scripts/validate_release.py:2494-2502 | Adding two different schemas to any candidate makes its finalised wheel refused. |
| ReleaseContents.StatementTells | scripts/validate_release.py:2445-2469 | Where hashes do not collide, one provenance statement belongs to one commit, fingerprint and kind, with one content of every source. |
| ReleaseContents.AcceptedWheelHolds | scripts/validate_release.py:2076-2157 | Whatever wheel is accepted holds, under their own names, the candidate's METADATA, WHEEL, entry points and license, every file under `src/artifex/` and the schema, and under the recorded digest a statement of kind, commit, fingerprint, toolchain and all source hashes. |
| ReleaseContents.AcceptedWheelNames | scripts/validate_release.py:2096-2136 | It has no other files. |
| ReleaseContents.ReleasedWheelHolds | scripts/validate_release.py:2523-2538 | The finalised wheel holds the same, of two different schemas only one. |
| ReleaseContents.InventoryMeans | scripts/validate_release.py:2481-2522 | The builder takes a built wheel exactly when it has one dist-info directory and exactly these names, of which only the provenance may be missing. |
| ReleaseSdist.FinalizeSdist | scripts/validate_release.py:2549-2590 | Refused on a wrong root or a missing packaged source or `PKG-INFO`, otherwise the candidate's source distribution whatever was built. |
| ReleaseSdist.FinalizeSdistTwice | scripts/validate_release.py:2554-2590 | Two built archives that pass give the same result, and finalising the result changes nothing. |
| ReleaseSdist.FinalizedSdistAccepted | scripts/validate_release.py:2174-2250 | The finalised source distribution is accepted if and only if the binding has the candidate's fingerprint, bounds hold, the repository has nothing different under the two reserved names, and version, schema and project file are right. |
| ReleaseSdist.CommittedPackageInfoRefused | scripts/validate_release.py:2574-2579 | Committing a different root `PKG-INFO` to any candidate makes its finalised distribution refused. |
| ReleaseSdist.AcceptedSdistIsCandidate | scripts/validate_release.py:2204-2245 | Whatever distribution is accepted has exactly the expected files, each but the provenance with the candidate's content, and its provenance states the candidate under the recorded digest. |
| ReleaseSdist.AcceptedWithBuiltProvenance | scripts/validate_release.py:2204-2245 | An accepted distribution with the builder's provenance bytes has exactly the finalised distribution's files. |
| ReleaseSdist.DirectoryDoesNotMatter | scripts/validate_release.py:2187-2192 | Adding a directory to an archive does not change the verdict as long as bounds are kept; adding a link or a special file makes it refused. |
| ReleaseContents.AcceptedSdistHolds | scripts/validate_release.py:2195-2250 | Whatever source distribution is accepted holds the whole commit, its package information and, under the recorded digest, a statement of the candidate with the hashes of all its files; and nothing else. |
| ReleaseContents.SdistInventoryMeans | scripts/validate_release.py:2560-2573 | The builder takes a built source distribution exactly when it has one root, the sources that a wheel packs, and package information. |
| AuditLog.LinesOfBoth | scripts/validate_release.py:1034-1052 | Behind a line feed the lines of appended bytes are simply added to the lines before. |
| AuditLog.LineThenRest | scripts/validate_release.py:1034-1052 | A line ends at a line feed, at a carriage return or at both together, and what follows is split further. |
| AuditLog.LinesReadBack | scripts/validate_release.py:1034-1052 | Lines written out, each followed by a line feed, are read back as those lines. |
| AuditLog.CheckAppend | scripts/validate_release.py:1030-1105 | The check raises no blocker exactly when bytes, source identities, added events, times and identities across both are acceptable. |
| AuditLog.AppendedLinesJudged | scripts/validate_release.py:1030-1084 | For every log and all lines appended to it: they are accepted exactly when what they decode to may be added and no identity of it is in the log. |
| AuditLog.AddedMeans | scripts/validate_release.py:1073-1105 | Records may be added exactly when they are the two core events of this transition and the validation report, one later than the other, with identities of their own. |
| AuditLog.AppendIsEventLevel | scripts/validate_release.py:1030-1084 | An accepted log decodes to the source records unchanged and in order followed by exactly the three expected events at strictly increasing times, with distinct identities in all of it. |
| AuditLog.ChainKeepsHistory | scripts/validate_release.py:1030-1084 | Over any chain of accepted transitions no earlier record is lost, changed or reordered, and each transition adds three. |
| EvidenceLedger.CollectEvidence | scripts/validate_release.py:556-593 | The loop keeps the first usable entry per identity, and the blockers are exactly: an invalid path, each identity given twice, missing and unknown categories. |
| EvidenceLedger.NoObjectionMeans | scripts/validate_release.py:556-593 | There is no blocker exactly when every path gives an entry and their identities are the nine categories, each once. |
| EvidenceLedger.CheckLedger | scripts/validate_release.py:1124-1175 | The check passes exactly on an append-only ledger whose added events have the exact scope and include every entry's payload. |
| EvidenceLedger.LedgerIsPermutation | scripts/validate_release.py:1146-1175 | Matching entries and events of equal number are a permutation of the nine payloads: none extra, repeated or missing. |
| EvidenceLedger.PermutationMatches | scripts/validate_release.py:1146-1175 | And every permutation of the nine payloads is accepted, with a ledger that has the entries and no identity twice. |
| EvidenceLedger.CheckFinalEvidence | scripts/validate_release.py:556-1175 | The two checks one after the other: when neither raises a blocker, the source ledger is kept and the appended events are a permutation of the nine payloads. |
| Counting.DistinctIffAllCounted | scripts/validate_release.py:1081 | A list has no repetition exactly when its set is as large as the list. |
| Counting.ContainedIsPermutation | scripts/validate_release.py:1151-1175 | A list without repetition contained in one of the same length is a permutation of it. |
| RequirementKeys.ExpandMeans | scripts/validate_traceability.py:404-412 | Expansion fails exactly on a descending range; otherwise it is not empty and holds exactly the identifiers with the range's prefix and a three-digit number within it, or the key alone. |
| RequirementKeys.ExpandRange | scripts/validate_traceability.py:404-412 | On the text of the key, for both prefixes and all numbers below 1000 in three digits: the range is refused when it descends and is otherwise exactly the identifiers from the first number to the second. |
| RequirementKeys.ExpandOther | scripts/validate_traceability.py:404-407 | A key that is not of this form stands for itself. |
| ArchitectureNames.NormalNameIsProjection | scripts/validate_traceability.py:95-96 | Normalisation reaches a normal form, leaves exactly the normal forms alone, and is idempotent. |
| ArchitectureNames.AmpersandIsAnd | scripts/validate_traceability.py:95-96 | `&` counts as `and` wherever it stands. |
| ArchitectureNames.WhiteSpaceIsBlank | scripts/validate_traceability.py:95-96 | Any white space between two parts counts as one blank. |
| ArchitectureNames.EndsDoNotCount | scripts/validate_traceability.py:95-96 | Blanks at the ends do not count. |
| ArchitectureNames.CaseDoesNotCount | scripts/validate_traceability.py:95-96 | Letter case does not count. |
| TraceScan.AddPart | scripts/validate_traceability.py:497-520 | One round of the entry loop: collisions, expansion, references and first-wins owners. |
| TraceScan.ScanVerdict | scripts/validate_traceability.py:494-520 | The entry loop reports nothing exactly when every entry is well formed and no requirement is covered twice, and then it knows the owners of every covered requirement. |
| TraceScan.LoopMessages | scripts/validate_traceability.py:497-518 | The loop reports a key as descending, or as without valid owner, exactly when some entry with that key is. |
| TraceScan.CheckCatalog | scripts/validate_traceability.py:527-563 | The errors are exactly: no usable catalog; colliding definitions, colliding references; the definitions beyond the authority, those missing, and the references without a definition, each with its set. |
| TraceScan.CheckOwners | scripts/validate_traceability.py:565-577 | A mismatch is reported for exactly the accepted requirements whose recorded owners differ from the expected ones. |
| TraceScan.NoFindingMeans | scripts/validate_traceability.py:521-577 | The checks after the loop have nothing to report exactly when coverage, catalog, references and owners are all as they should be. |
| TraceScan.LoopRefinesMeaning | scripts/validate_traceability.py:494-577 | Loop and checks together report nothing exactly on a map that is faultless requirement by requirement. |
| TraceScan.VerdictIgnoresOrder | scripts/validate_traceability.py:497-577 | The verdict is the same for every permutation of the entries. |
| TraceScan.FirstEntryWins | scripts/validate_traceability.py:519-520 | In every list of entries, a requirement has owners on record exactly when some usable entry names it, and then they are those of the first such entry. |
| TraceScan.OrderShowsInRecord | scripts/validate_traceability.py:519-520 | Two usable entries with different owners for one requirement leave different owners on record in the two orders. |
| TraceScan.OverlapReportedIff | scripts/validate_traceability.py:499-505 | In every list an overlap is reported if and only if some entry shares a requirement with an earlier one that has usable owners. |
| TraceScan.CollisionsDependOnOrder | scripts/validate_traceability.py:499-520 | The two orders of two entries differ in whether they report an overlap if and only if the entries share a requirement and just one of them has usable owners. |
| TraceScan.PassesIffPartition | scripts/validate_traceability.py:494-577 | With catalog and authority in order, a map passes exactly when its keys partition the accepted requirements, each has its expected owners, and owners are spelled in one way. |
| Traceability.CheckMap | scripts/validate_traceability.py:487-577 | The messages about one map are exactly that it is missing, or those of its loop and checks; the traced number is that of the accepted requirements it covers. |
| Traceability.Validate | scripts/validate_traceability.py:438-583 | The messages of the report are exactly what is wrong with header, authority, baseline, key sets, the five maps and the metrics; so it passes exactly when all these are right; the traced numbers are exact. |
| Traceability.TracedMeans | scripts/validate_traceability.py:564 | The traced number of a map is the number of accepted requirements that some key of it covers. |
| Traceability.MetricsByName | scripts/validate_traceability.py:578-580 | The expected metrics by name: the total and the traced number of each map, and nothing else. |
| Traceability.UsableNamesMean | scripts/validate_traceability.py:510-515 | Owners are usable exactly when they are a list of one or more different non-empty strings. |
| Traceability.PassesIffMapsAreRight | scripts/validate_traceability.py:487-582 | Given clean header, catalogs and authority: the document passes if and only if each map partitions the accepted requirements with the expected owners, architecture names are spelled in one way, and all metrics are the requirement count. |
| SpellingExample.OnlySpellingLeft | scripts/validate_traceability.py:541-548 | For every document that meets all other conditions the verdict is whether the architecture map spells each component in one way. |
| SpellingExample.SpellingDecides | scripts/validate_traceability.py:541-548 | A document and authority, for every spelling of its one component, that meet all other conditions and pass exactly when both entries use the same spelling. |
| SpellingExample.TwoSpellingsRefused | scripts/validate_traceability.py:541-548 | The concrete input that fails: `a` in one entry and `A` in the other; with `a` in both it passes. |
| Traceability.ReportIgnoresOrder | scripts/validate_traceability.py:487-582 | The verdict on the document does not depend on the order of the entries in any map. |
| ProjectEntities.ScanEntities | scripts/validate_traceability.py:144-161 | The requirements, milestones and tasks are exactly the names declared with that kind under an accepted artifact; artifacts and dependencies on record are those of the specification. |
| ProjectEntities.NamesOfMean | scripts/validate_traceability.py:144-156 | A name is of a kind exactly when some entity of that kind declares it under an accepted artifact. |
| ProjectEntities.LastArtifactCounts | scripts/validate_traceability.py:157 | A name has an artifact on record if and only if some accepted entity, of whatever kind, declares it, and then it is that of the last one. |
| ProjectEntities.LastDependenciesCount | scripts/validate_traceability.py:158-161 | A name has dependencies on record if and only if some accepted task of that name lists them, and then they are the strings of the last such list. |
| ProjectEntities.StringsMean | scripts/validate_traceability.py:158-161 | What counts of a list of dependencies are its strings; other values in it are passed over. |
| ProjectEntities.CollectArchitecture | scripts/validate_traceability.py:162-182 | The architecture names are the normalised names of all good component lists, and there are as many problems as lists that are not good. |
| ProjectEntities.DeriveFromProject | scripts/validate_traceability.py:144-390 | Entities, component lists and manifests give a model in which every requirement has an artifact; the derived authority is that of this model and the faults are exactly its faults. |
| TraceAuthority.ReadEvidence | scripts/validate_traceability.py:183-241 | The contracts on record are those of the passing evidence files, and the faults are exactly the files neither skipped nor good. |
| TraceAuthority.SkippedMeans | scripts/validate_traceability.py:189 | Passed over are exactly the evidence of milestone ten and its parts. |
| TraceAuthority.ReadGates | scripts/validate_traceability.py:242-279 | The gates on record are those of the good gate files, whose evidence all has the gate's contract, and the faults are exactly the files neither skipped nor good. |
| TraceAuthority.RequiredMeans | scripts/validate_traceability.py:258-263 | The required evidence of a gate is read exactly when it is a list of one or more non-empty strings. |
| TraceAuthority.CheckRequirement | scripts/validate_traceability.py:331-383 | The gate lookup is defined; the faults are exactly malformed, colliding and unknown values, map by map, or else those of tasks, gates and evidence that do not link up; none exactly when all is well. |
| TraceAuthority.BeforeTaskCuts | scripts/validate_traceability.py:368 | Of a task that is a milestone name followed by `-T` and more, what counts is the milestone name. |
| TraceAuthority.TaskFitsMeans | scripts/validate_traceability.py:366-374 | A task fits exactly when the part before its first `-T` is one of the milestones and one of its recorded dependencies, if it has any, is too. |
| TraceAuthority.CheckManifests | scripts/validate_traceability.py:299-383 | The expectations are the parsed mappings of the responsible manifests, and the faults are exactly those of the accepted artifacts. |
| TraceAuthority.DeriveAuthority | scripts/validate_traceability.py:183-390 | The derived authority has the catalogs and expectations of the inputs; the faults are exactly those of evidence, gates and manifests and the requirements without authority; it has no problem exactly when all are clean. |
| TraceClosure.MapsToExpected | scripts/validate_traceability.py:565-577 | In a passing document the names a requirement is mapped to are exactly the expected ones. |
| TraceClosure.PassingReportCloses | scripts/validate_traceability.py:183-383 | In a passing report every task of a requirement is named after a milestone mapped to it and depends, where it has recorded dependencies, on such a milestone; every gate passed, targets a milestone that owns the requirement and has all its evidence mapped to it; every evidence is required by one of these gates and passed under that gate's contract. |
| TraceClosure.MappedNamesAreDeclared | scripts/validate_traceability.py:144-290 | In a passing report the definitions of each kind are exactly what the model, the evidence files and the gate files declare of it, and whatever a requirement is mapped to is declared, architecture names in normal form. |
| TraceClosure.DerivedVerdict | scripts/validate_traceability.py:487-582 | The verdict theorem for a derived authority, whose expectations stay within the catalogs by construction. |
| SecretScrub.MatchSound | src/artifex/policy.py:39-41 | The length a matcher finds at the head of a text is that of a word of its pattern. |
| SecretScrub.MatchLongest | src/artifex/policy.py:39-41 | No word of the pattern at the head of the text is longer. |
| SecretScrub.NoSecretRemains | src/artifex/policy.py:46-52 | For every text no stretch of the scrubbed text matches any of the three patterns. |
| SecretScrub.ScrubIsProjection | src/artifex/policy.py:46-52 | Scrubbing twice is scrubbing once, and a text is left alone exactly when it holds no match. |
| SecretScrub.Scrub | src/artifex/policy.py:46-52 | The loop over the patterns computes the scrubbed text. |
| SecretScrub.TokenRedacted | src/artifex/policy.py:40 | A GitHub prefix followed by twenty or more letters, digits or underscores, by name, is scrubbed to the mark. |
| SecretScrub.KeyRedacted | src/artifex/policy.py:41 | The key prefix followed by twenty or more letters, digits, underscores or hyphens is scrubbed to the mark. |
| SecretScrub.LabelRedacted | src/artifex/policy.py:39 | A label, in any letter case, with a separator and a value is scrubbed to the mark. |
| LeftmostRewrite.PassLeavesClean | src/artifex/policy.py:50-51 | A pass leaves no match of its own pattern, and none of another pattern that had none, when the mark and the matches are safe for it. |
| LeftmostRewrite.PassKeepsRest | src/artifex/policy.py:51 | A pass splits the text into kept characters and leftmost matches; the result is the same pieces in order with the mark for each match. |
| LeftmostRewrite.FurtherPassKeepsRest | src/artifex/policy.py:50-51 | A further pass over what earlier ones show splits the original text into what was hidden before, new matches and kept characters, and shows them in order. |
| SecretScrub.ScrubKeepsRest | src/artifex/policy.py:46-52 | The three passes together: the text falls into kept characters and hidden stretches, each hidden stretch is a word of one of the patterns, and the scrubbed text is the kept characters in order with one mark for each hidden stretch. |
| MilestoneDag.Resolve | tools/artifex2/validate_m0.py:70-77 | The loop terminates; it completes exactly on acyclic graphs, with every node's dependencies in strictly earlier layers; when it rejects there is a cycle among the remaining nodes. |
| MilestoneDag.LayeredIsAcyclic | tools/artifex2/validate_m0.py:72-77 | A layering of all nodes rules out every cycle. |
| MilestoneDag.StuckHasCycle | tools/artifex2/validate_m0.py:73-75 | A non-empty set of nodes each depending on another of the set contains a cycle. |
| MilestoneDag.Validate | tools/artifex2/validate_m0.py:44-77 | On the list as given: each error names the first condition that fails, the milestone set, a dependency of a counting entry that is no identifier of the list, or a cycle along `depends_on`; acceptance means that all hold. |
| MilestoneDag.DependenciesOfEntry | tools/artifex2/validate_m0.py:66 | The dependencies on record for an identifier are those of its last entry. |
| Newlines.CanonicalisationIdempotent | tools/artifex2/capture_v1_baseline.py:25-34 | Canonicalising twice is canonicalising once, for every byte string. |
| Newlines.PairBecomesLf | tools/artifex2/capture_v1_baseline.py:34 | Each CRLF pair becomes one line feed, wherever it stands. |
| Newlines.LfBecomesPair | tools/artifex2/capture_v1_baseline.py:34 | Each line feed becomes a pair, and other bytes stay. |
| Newlines.CheckoutsAgree | tools/artifex2/capture_v1_baseline.py:25-34 | For texts that pass the gate, the LF and CRLF checkouts give the same bytes if and only if the text has no CRLF pair. |
| Newlines.PairDisagrees | tools/artifex2/capture_v1_baseline.py:25-34 | The concrete text that fails: for a single CRLF pair the two checkouts give different bytes. |
| Newlines.GateDecisionKept | tools/artifex2/capture_v1_baseline.py:28-33 | The accepted form passes the NUL and UTF-8 gate (UTF-8 as in section 4 of RFC 3629) exactly when the content did. |
| ByteText.Utf8IsEncodedText | tools/artifex2/capture_v1_baseline.py:30-33 | The bytes that pass as UTF-8 are exactly the encoded forms of sequences of Unicode scalar values (section 3 of RFC 3629). |
| Newlines.Capture | tools/artifex2/capture_v1_baseline.py:44-62 | The two loops give one entry per file in order, with size and digest of its accepted form, and the aggregate over all entries. |
| Newlines.ManifestIgnoresNewlineStyle | tools/artifex2/capture_v1_baseline.py:44-62 | Two checkouts that differ only in the newline style of pairless texts have the same entries and the same aggregate. |
| Newlines.PortableFormsAgree | scripts/validate_release.py:210-211 | The LF, CRLF and CR forms of a text without carriage returns have the same portable form. |
| Newlines.PortableIsNormal | scripts/validate_release.py:210-211 | The portable form has no carriage return and is stable. |
| MarkerBlocks.SpliceFailsIff | tools/deploy_dashboard_lan.py:211-218 | A splice fails exactly when one marker is there without the other, or no end marker follows the first begin marker. |
| MarkerBlocks.SpliceReplaces | tools/deploy_dashboard_lan.py:211-214 | From the first begin marker to the end of the next end marker everything is replaced by the block, and the text before and behind is kept. |
| MarkerBlocks.SpliceIdempotent | tools/deploy_dashboard_lan.py:211-218 | On every text on which a splice succeeds, splicing the result again changes nothing. |
| MarkerBlocks.DeployOneMore | tools/deploy_dashboard_lan.py:211-218 | After any sequence of deployments from a file without the markers, one more succeeds and gives the kept text followed by one block per target in order of first deployment. |
| MarkerBlocks.OneBlockEach | tools/deploy_dashboard_lan.py:211-218 | After any sequence each deployed target has its block and each of its two markers exactly once, and any other target has none. |
| HostRecords.ActiveMeans | tools/deploy_dashboard_lan.py:236 | A line is in force for a name exactly when the name stands somewhere in it and it is no comment. |
| HostRecords.UpdateLines | tools/deploy_dashboard_lan.py:233-241 | Refused exactly on a conflicting active line without the record; otherwise the record is appended unless it is there. |
| HostRecords.UpdateSettles | tools/deploy_dashboard_lan.py:233-244 | After an update the record is there, all earlier lines are kept in order, and updating the file again changes nothing. |
| HostRecords.NoMutualConflict | tools/deploy_dashboard_lan.py:236-241 | Updating for one host neither causes nor removes a conflict for another whose name its record does not mention. |
| Dashboards.BlocksAreFamily | tools/deploy_dashboard_lan.py:37-56 | The blocks of the two dashboards do not interfere: no marker begins like another, and no block body has a `#`. |
| Dashboards.BlockServes | tools/deploy_dashboard_lan.py:190-210 | A block turns plain requests for the host away, forwards secure ones from the private networks to the container and refuses all others. |
| Dashboards.RecordsApart | tools/deploy_dashboard_lan.py:37-56 | The DNS record of one dashboard does not mention the host name of the other. |
| DashboardDeploy.Server.Perform | tools/deploy_dashboard_lan.py:151-277 | What each step changes when it succeeds, and that a failing step leaves all other files alone. |
| DashboardDeploy.Server.Rollback | tools/deploy_dashboard_lan.py:132-148 | Both shared files are restored, and the dashboard's own files where they were backed up; the other dashboard's are not touched. |
| DashboardDeploy.Server.Deploy | tools/deploy_dashboard_lan.py:126-279 | A run succeeds exactly when all steps do and neither file is malformed or in conflict, and then has updated both and put its own container file and release in place; a run failing at any step leaves both shared files as they were, and its own files where they were there before; the other dashboard's own files are never touched. |
| DashboardDeploy.Server.DeployAll | tools/deploy_dashboard_lan.py:126-279 | After any sequence of runs, failing or not: the dashboards deployed are, in order, those of the runs whose steps succeed and whose host had no conflict at the start; Caddy and DNS file are what these deployments make of the original ones; every dashboard deployed at all has container file and release of its last succeeding run. |
| DashboardDeploy.OneMoreRecord | tools/deploy_dashboard_lan.py:233-244 | After any deployments a further DNS update succeeds exactly when the host had no conflict at the start, and adds the record where it is missing. |
| DashboardDeploy.ConflictsStay | tools/deploy_dashboard_lan.py:236-241 | Deployments neither add nor remove a DNS conflict of any dashboard. |
| DashboardDeploy.WithRecordsKeeps | tools/deploy_dashboard_lan.py:240-241 | Over any deployments all lines are kept in front and in order, every deployed record is there, and whatever is added is such a record. |
| DashboardDeploy.OneMoreDeployment | tools/deploy_dashboard_lan.py:187-219 | A further deployment of either dashboard after any deployments succeeds and gives the text of one more deployment. |
| DashboardDeploy.BlocksAfterDeployments | tools/deploy_dashboard_lan.py:187-219 | After any deployments each deployed dashboard has its block once, the other none, and the text begins with the text as read, without its trailing white space. |
| OutsideText.OutsideTextKeptIff | tools/deploy_dashboard_lan.py:187-219 | After any deployments the file begins with its own original text, without trailing white space, if and only if that text has no carriage return. |
| OutsideText.DeploymentChangesWindowsText | tools/deploy_dashboard_lan.py:187-219 | The concrete file that fails: one with a CRLF line ending and no marker, whose text either deployment changes. |
| OutsideText.DnsTextKeptIff | tools/deploy_dashboard_lan.py:233-244 | After any deployments the DNS file begins with its own original text if and only if the only line breaks of that text are line feeds. |
| HostRecords.TranslateIs | tools/deploy_dashboard_lan.py:187 | A text as read has no carriage return, and it is the file itself if and only if the file has none. |
| HostRecords.WindowsFormRead | tools/deploy_dashboard_lan.py:187 | The CRLF form of a text without carriage returns is read as that text. |
| HostRecords.CarriageFormRead | tools/deploy_dashboard_lan.py:187 | So is the CR form. |
| DashboardDeploy.DashboardsDoNotConflict | tools/deploy_dashboard_lan.py:233-241 | Deploying one dashboard neither causes nor removes a DNS conflict for the other. |

## Left out

- Lock payload: a partial write of the lock payload is not distinguished from none; both read as unreadable. A process number reused by an unrelated process is modelled as "reported alive".
- Host threads: a thread that cannot be started after the first state write, joins that time out, and restarting a stopped host object are not modelled.
- HostShutdown.PendingStopMovesIffNotStalled: a dispatched operation, a lease renewal or a file write that never returns counts as a thread that can still move.
- Run store, runtime service and coordinator lease: lease renewal is a step that may fail; nothing else of them is visible in the model.
- Archives: zip, tar and gzip encodings, member attributes, encryption flags, links inside zips, and the built wheel's file name.
- Csv.RowsReadBack: fields with carriage returns are excluded. Candidate file names have none, because the listing is split into lines at carriage returns too; whether the CSV writer quotes one with this line terminator depends on the Python version.
- ReleaseWheel.FinalizedWheelAccepted: assumes candidate file names without control characters; the version regular expression and the JSON schema check are uninterpreted predicates on contents.
- Native bundles, release manifests, gates and the long lists of flat field comparisons in the release validator.
- AuditLog.CheckAppend: the `status.yaml` part of the transition check and the JSON and timestamp decoding of a line, which is a function parameter.
- EvidenceLedger.CheckLedger: loading evidence and opening the canonical ledger are parameters.
- EvidenceLedger.CollectEvidence: the later flat checks on each kept entry (facts, claim, category reports, aggregate hashes) are not modelled.
- TraceAuthority.DeriveAuthority: file safety checks, JSON and YAML decoding, schema validation of the project model and evidence classification happen before the model's inputs.
- Traceability.Validate: the header comparison (top-level keys, digests, policy) is one truth value, and the order of the names inside one message is not modelled.
- SecretScrub.NoSecretRemains: ASCII case folding and white space only; other characters count as ordinary ones. The same holds for architecture names, digits in requirement keys and trimming of the Caddy text.
- DashboardDeploy.Server.Deploy: the container, the upload and the health checks are steps that may fail; clean-up after the trap is removed, and a failing copy inside the rollback itself, are not modelled.
- `src/artifex/cli.py`, `src/artifex/mcp.py`, capability and credential probes, qualification harnesses and the other milestone validators: thin transports, external processes or flat field checks.
