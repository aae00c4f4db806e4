# A verified model of owlzops-mapper

`owlzops-mapper` audits Linux hosts, one machine or a fleet over SSH, and answers with reports, a
verdict and an exit code. This project models the parts of it where a wrong step would go unnoticed,
and proves what they are for: who is trusted and when that changes, what survives a killed run, what
an exit code may be read as, what is signed, what a comparison reports, and what is left on a remote
host. Loops of the source are methods with invariants, objects it updates in place are classes, and
protocols are step systems quantified over every run.

`dafny verify dfyconfig.toml` verifies the whole project.

| file | part of the program |
|---|---|
| `Text.dfy`, `Lists.dfy`, `Wrappers.dfy`, `Ordering.dfy` | the string and list operations, result types and the string order everything else uses |
| `Glob.dfy` | the two host-pattern matchers: the backtracking loop and the recursion it is measured against |
| `HostNames.dfy`, `KnownHosts.dfy`, `FusedLines.dfy`, `TrustRuns.dfy`, `PinTails.dfy`, `OtherPins.dfy`, `StoreFacts.dfy`, `Markers.dfy` | addresses, the host-key trust store, lines fused onto an unterminated one, trust on first use over runs of sessions, the ends of the pin file that a host's own pin and the pins of others depend on, what every line of a store means, and hosts under a marker the program cannot evaluate |
| `Reports.dfy`, `Jsonl.dfy`, `LogRuns.dfy` | the append-only record log: resuming it, writing it, and histories of killed and resumed runs |
| `Admission.dfy` | admission control of the fleet run |
| `Scoring.dfy`, `Verdicts.dfy`, `Acceptance.dfy`, `PolicyFacts.dfy`, `Outcome.dfy`, `ExitFacts.dfy`, `MissingHosts.dfy` | score and verdict, the accepted-risk policy, coverage and the exit code, each also read off the ids, rules and findings themselves, and which hosts are missing |
| `Signing.dfy` | the canonical form that is signed |
| `Changes.dfy`, `Drift.dfy`, `DriftFacts.dfy`, `DriftEntries.dfy`, `FleetDrift.dfy` | comparing two snapshots, what the returned list says, every entry it can hold, and comparing two fleets |
| `KeyOptions.dfy`, `QuoteGrammar.dfy`, `SshConfig.dfy`, `ConfigText.dfy` | the `authorized_keys` option splitter and the grammar of its quotes, the OpenSSH configuration scan and what every line of it means |
| `Mounts.dfy`, `Staging.dfy`, `Teardown.dfy`, `Retry.dfy` | where a remote scan may stage, what it leaves there, how it is torn down, and how often it is retried |

## What the code does that a reader might not expect

Where the code and its documentation differ the model follows the code.

- The loop matcher tests for an equal byte before it tests for `*`, so on a text that holds a `*` it can
  miss a match. The two matchers agree for every pattern exactly on the texts without `*`
  (`Glob.MatchersAgreeExactly`); valid host names are such texts.
- A pin is appended without looking at how the pin file ends. The next session trusts the key exactly if
  the unterminated last line, less its leading blanks, is at most one word that starts no comment or marker
  and that, together with the name, is still a host field of this host (`PinTails.PinIsTrustedExactly`). A
  blank line qualifies; `x,` does, and makes the pin one of host x as well (`PinTails.SharedTail`);
  `@revoked ` does not, and turns the pin into a revocation (`PinTails.RevokedTail`). A completed pin
  always leaves a terminated file.
- The address `[]` is valid and splits to the empty host on port 22 (`PinTails.EmptyNameAddress`), and a
  pin under the empty name is never read back (`PinTails.PinTakesExactly`). Whether a session gets that far
  is open: the connection to the host (src/ssh_engine.rs:1328-1331) comes before the trust store is read.
- The comment at src/main.rs:162-165 says that an accepted finding no longer forces exit code 3. No policy
  that loads can do that (`Outcome.PolicyKeepsCompromisedExit`).
- `hosts_missing` counts reports, the list of missing hosts goes by names. A resumed log counts every record
  it holds, for hosts requested now or not (src/main.rs:395-396), and a second local name counts none. While
  no more reports came than hosts were requested, the two agree exactly if the reports that answer for no
  requested host are as many as the local names credited without a record of their own; beyond that, exactly
  if every requested host is credited (`MissingHosts.MissingCountAgreesExactly`). Two local names count a host
  missing that no list names (`MissingHosts.TwoLocalNamesDisagree`). A record of a host that is no longer
  requested lets a run exit 0 although a requested host never answered (`MissingHosts.StaleLogHidesAHost`);
  exactly when exit 0 means that all answered is `MissingHosts.CleanIsCompleteExactly`, and a log that fits
  the request is enough (`MissingHosts.FittingLogHidesNobody`).
- What other hosts do is invisible to a host exactly if the end of the pin file is harmless to it: a blank or
  terminated line, a comment, a line whose three fields are complete, or one that with the other host's name
  appended is still no host field of this host (the whole condition is `Harmless`, `OtherPins.PinIsHarmlessExactly`,
  `OtherPins.OthersNeverMatterExactly`). An entry without its newline is not: the next pin of any other host
  grows its key, and the host's own key is then reported as changed (`OtherPins.UnterminatedEntryIsLost`).
- A log names each input address once, and the local machine has several. Only the first local name of a
  run is looked up in the log (src/main.rs:1127), so under another one the machine is scanned and recorded
  again (`LogRuns.OtherAliasIsScanned`); while the first name stays the same it is recorded once
  (`LogRuns.LocalMachineOnce`).
- A run that resumes a log with a compromise in it and then cannot open or terminate that log exits 2
  (src/main.rs:1042-1056); from there on a compromise always exits 3 (`Outcome.CompromiseSurfacesExactly`).
- README.md:475-479 says a removed host does not count as degraded; src/compare.rs:2047 reports it as
  `Degraded`, and so does `FleetDrift.CompareHost`.
- The comment at src/ssh_engine.rs:1006-1011 says the rename ensures that no partial file is ever
  executable. The rename runs after whatever ends the input of `cat`. When that is the client leaving, or
  the transport failing while the client still waits, fewer bytes can land, an empty file included
  (`Staging.InterruptedUploadCanLand`). For every configuration that copies, all runs land the whole
  binary or nothing if and only if the binary is empty (`Staging.LandsWholeExactly`). Exit status 0 is what
  a caller can rely on (`Staging.UploadedIsWhole`), and a run executes nothing before it
  (`Staging.OnlyTheWholeBinaryRuns`).
- A resumed run judges the logged reports again, at the time of the resume (src/main.rs:395,
  src/acceptance.rs:153). A rule that lapses in between can turn exit code 0 into 1
  (`Outcome.LapsedRuleShows`); that is the only change there can be (`Outcome.ResumedExitExactly`).
- An `=` anywhere in a line of the OpenSSH configuration ends its keyword, so `Host a=b` is no Host line
  (`ConfigText.EqualsForm`).
- An expired rule shadows a later live one, because the first match is taken before its date is read
  (`Acceptance.ExpiredRuleShadows`).

## Model

| member | source | states |
|---|---|---|
| Glob.GlobMatch | src/known_hosts.rs:241-268 | the backtracking loop terminates, accepts only what the reference semantics matches, and on a text without `*` accepts exactly that |
| Glob.AcceptsImpliesMatches | src/known_hosts.rs:241-268 | soundness of the loop for every pattern and every text |
| Glob.AcceptsExactlyMatches | src/acceptance.rs:97-108 | on every text without `*` the loop and the recursion are one matcher |
| Glob.MatchersAgreeExactly | src/known_hosts.rs:248-254 | agreement for all patterns holds if and only if the text has no `*` |
| Glob.LiteralMatchesOnlyItself | src/acceptance.rs:97-108 | a pattern without wildcards matches one text, itself |
| Glob.MatchesByPieces | src/acceptance.rs:97-108 | a match is a cut of the text into one piece per pattern character: anything for `*`, one character for `?`, itself otherwise |
| HostNames.CandidatesAreInjective | src/known_hosts.rs:211-217 | two valid addresses share a stored name exactly if they split into the same host and port |
| HostNames.CandidateIsPlain | src/runner.rs:59-67 | the stored name of a valid address has no blank, wildcard, comma, bar or newline |
| HostNames.SplitHostHasNoBracketPair | src/ssh_engine.rs:615-638 | splitting a valid address never yields a host that reads like a bracketed name |
| HostNames.BracketForms | src/ssh_engine.rs:615-638 | `[addr]`, `[addr]:port` and junk behind the bracket |
| HostNames.BareForms | src/ssh_engine.rs:615-638 | a name, `name:port` and a name with a tail that is no port |
| HostNames.CandidateSplitsBack | src/known_hosts.rs:211-217 | the name a host and port are stored under is an address of that host and port |
| KnownHosts.HostFieldMatches | src/known_hosts.rs:270-286 | a hashed field goes by the keyed hash, any other matches if some comma-separated pattern does |
| KnownHosts.LoadEntries | src/known_hosts.rs:105-191 | what is kept of both stores: the entries of this host in file order and its first marker that cannot be evaluated |
| KnownHosts.LoadStore | src/known_hosts.rs:105-191 | one store is read line by line on top of what is already loaded |
| KnownHosts.KnownHostsChecker.constructor | src/known_hosts.rs:194-209 | a session decides on what the stores held when it started |
| KnownHosts.KnownHostsChecker.Verify | src/known_hosts.rs:403-515 | each of the five answers exactly under its condition on the loaded entries and marker, a conflict with the first trusted entry; only a first use writes, exactly one line, or leaves the failure flag |
| KnownHosts.DecideMeaning | src/known_hosts.rs:370-467 | revoked, known, changed, unsupported and first use, each if and only if the entries and the marker say so, with the three RSA key names taken for one |
| KnownHosts.FieldMatchesName | src/known_hosts.rs:270-286 | the host field of a pinned line matches its own host and no other |
| KnownHosts.AbsorbPlainLine | src/known_hosts.rs:105-191 | a line without marker for a plain name adds one entry for that name and nothing for any other |
| KnownHosts.ThreeFieldsParse | src/known_hosts.rs:470-471 | the line a pin writes parses back to its three fields |
| StoreFacts.PlainLineReads | src/known_hosts.rs:105-191 | a line without marker is its first three words, whatever the blanks and whatever follows |
| StoreFacts.MarkedLineReads | src/known_hosts.rs:105-191 | a line with a marker is the marker and the three words behind it |
| StoreFacts.SilentLines | src/known_hosts.rs:105-191 | comments and lines of fewer than three words say nothing |
| StoreFacts.FieldMatchesExactly | src/known_hosts.rs:270-286 | a hashed field goes by its salt and digest, any other by some stretch between commas |
| StoreFacts.LoadExactly | src/known_hosts.rs:105-191 | a load holds exactly the entries the lines of the two stores give for the host, in file order, the system store first, and the first marker that cannot be evaluated |
| Markers.SessionAnswers | src/known_hosts.rs:403-467 | every readable session is answered by those conditions on what its stores hold |
| Markers.MarkedHostIsNeverPinned | src/known_hosts.rs:458-467 | one line for the host with a marker other than `@revoked`, in either store, and no run of sessions, of this host and others, ever pins a key for it |
| Markers.AuthorityLineForbidsPins | src/known_hosts.rs:458-467 | the same from the text: a store with such a line anywhere in it |
| TrustRuns.RunSession | src/known_hosts.rs:403-515 | a whole session, from loading the stores to the pin, in terms of the two files alone |
| TrustRuns.PinReloads | src/known_hosts.rs:470-497 | behind a file whose unterminated last line, if any, is blank, an appended pin adds its entry to the next load of its own host and changes no other load |
| TrustRuns.RunLoads | src/known_hosts.rs:105-191 | from such a file on, after any run of sessions the load of a host is the initial load plus the pins of its own sessions |
| TrustRuns.TrustOnFirstUse | src/known_hosts.rs:403-515 | once a host and port are pinned, in whatever run and behind every pin file whose end lets the pin through, every later readable session accepts exactly that key, and any other key is Changed or Revoked |
| TrustRuns.EmptyStoresPin | src/known_hosts.rs:403-515 | on empty stores the first session of every named host pins, behind an end that lets the pin through |
| TrustRuns.TrustOnFirstUseFromClean | src/known_hosts.rs:470-497 | from a file with a terminated or blank last line no run reaches an end that loses the pin of a named host |
| TrustRuns.TakenPinLoads | src/known_hosts.rs:470-497 | a pin that the end of the file lets through is one more trusted entry of its host, under the fused host field |
| TrustRuns.DecideAfterPin | src/known_hosts.rs:377-382 | the pinned entry decides every key of its host by canonical type and blob |
| TrustRuns.OtherHostsNeverMatter | src/known_hosts.rs:211-217 | from a file with a terminated or blank last line, deleting the sessions of all other hosts from a run changes no outcome |
| TrustRuns.NamesAreInjective | src/known_hosts.rs:211-217 | sessions share a stored name exactly if they share host and port |
| FusedLines.FusedReads | src/known_hosts.rs:105-191 | a line appended to an unterminated word reads as an entry of the fused host field with the appended key |
| FusedLines.FusedElse | src/known_hosts.rs:105-191 | after any other rest the line does not hold the key, unless the rest was already an entry of its host |
| PinTails.PinIsTrustedExactly | src/known_hosts.rs:485-497 | after a first use the next session knows the key if and only if the unterminated last line is a lone unmarked word whose fusion with the name still matches the host |
| PinTails.PinTakesExactly | src/known_hosts.rs:470-497 | behind a file with a terminated or blank last line, a first use is remembered if and only if the stored name is not empty |
| PinTails.EmptyNameAddress | src/ssh_engine.rs:615-638 | a valid address whose host is empty |
| PinTails.PinSurvivesExactly | src/known_hosts.rs:485-497 | a pin reads back as the plain entry of its own host alone if and only if the unterminated last line is blank |
| PinTails.RevokedTail | src/known_hosts.rs:485-497 | behind an unterminated `@revoked ` every first use revokes the key it means to pin |
| PinTails.SharedTail | src/known_hosts.rs:485-497 | behind an unterminated `x,` the pin of any host makes its key known for host x |
| OtherPins.RestParses | src/known_hosts.rs:105-191 | what an unterminated line reads as alone: a comment, a bare marker, or a marker and fields |
| OtherPins.FusedParses | src/known_hosts.rs:470-497 | what it reads as with a pin appended |
| OtherPins.PinIsHarmlessExactly | src/known_hosts.rs:485-497 | for every pin file and every stored name, an appended pin leaves what the name reads as it was if and only if the end of the file is harmless to it |
| OtherPins.CleanIsHarmless | src/known_hosts.rs:211-217 | a terminated or blank last line is harmless to every host but the one that pins |
| OtherPins.OthersNeverMatterExactly | src/known_hosts.rs:403-515 | runs of other hosts, of any length, leave what a host reads as it was if and only if the end of the file is harmless for every session that would pin behind it |
| OtherPins.OthersLeaveOutcomes | src/known_hosts.rs:403-515 | behind such an end a session is answered as if the sessions of others had not been |
| OtherPins.MixedRunsAgree | src/known_hosts.rs:403-515 | in runs that mix hosts, behind an end that is harmless and lets the host's own pin through, the host is answered as after its own sessions alone, up to the host field a conflict is quoted with |
| OtherPins.UnterminatedEntryIsLost | src/known_hosts.rs:485-497 | behind one valid entry without its newline, the first use of any other host turns the entry's own key into a changed one |
| Jsonl.ResumeScan | src/main.rs:355-402 | for every file, by its lines: it succeeds exactly if no character is cut and every line that is not blank holds a report with an input address, the records are then those reports in order, and otherwise the error has the kind and number of the first line that fails; the credited addresses are those of the records |
| Jsonl.ScanAnswersLines | src/main.rs:376-394 | the same of the scan as a function, for every division of a file into complete lines and a rest |
| Jsonl.ScanLinesExactly | src/main.rs:376-394 | complete lines: which reports, and which line is the first that fails |
| Jsonl.ResumeAfterCut | src/main.rs:355-402 | for every log and every byte position of a cut: exactly the complete records are credited, the newline is reported missing exactly for a cut before it, a cut inside a record is refused with the offset where it starts, a cut inside a character as unreadable |
| Jsonl.RepairThenAppend | src/main.rs:1032-1062 | truncating as told, or adding the newline, and then appending reads back as the old complete records followed by the new ones |
| LogRuns.DrainChannel | src/main.rs:1064-1107 | the writer hands over exactly these bytes, writes nothing behind a failed write, and counts every report once as written or lost |
| LogRuns.WriterOneMore | src/main.rs:1064-1107 | a report is written in full exactly if its write succeeds and none before it failed |
| Jsonl.CutTwice | src/main.rs:1064-1107 | a byte prefix of a byte prefix is a byte prefix, cut characters included |
| LogRuns.StreamIsACut | src/main.rs:1064-1107 | whatever fails, the file is a byte prefix of the lines of some records: the ones in full and at most one more |
| LogRuns.ReportingIsNew | src/main.rs:895-945 | deduplicating the addresses, scanning one local alias, retaining the uncredited hosts and running the admission loop brings back no input address twice and none the log credits |
| LogRuns.RemoteExactly | src/main.rs:895-945 | the remote hosts to scan are those given, neither local nor credited, each once, in order |
| LogRuns.ReportingExactly | src/main.rs:1315-1360 | which addresses report, by the events of the round alone |
| LogRuns.UninterruptedRoundReports | src/main.rs:1340-1360 | a round that ran to its end uninterrupted brings back every remote host whose task returned a report, and no other |
| LogRuns.FirstLocalExactly | src/main.rs:922-945 | the local machine is scanned under the first of the given addresses that is local |
| LogRuns.RoundKeeps | src/main.rs:1123-1133 | one killed and repaired run keeps every record, adds a prefix of its own, and records no input address twice, whatever of its reports were dropped, unserialisable or cut |
| LogRuns.LeftIsACut | src/main.rs:1064-1107 | what a killed run leaves of the writer's stream is a byte prefix of the lines of old and offered records |
| LogRuns.RanIsNew | src/main.rs:1123-1133 | every record a run can add is of an address new to the log and of its own |
| LogRuns.RepairPossibleExactly | src/main.rs:365-367 | the next run can repair the log if and only if no character was cut in two |
| LogRuns.HistoryKeepsRecords | src/main.rs:1032-1062 | over every history of killed, repaired and resumed runs each log is the lines of records with distinct input addresses and extends the one before |
| LogRuns.LocalScanExactly | src/main.rs:1126-1132 | the local machine is scanned if and only if its first name is not credited, whatever its other names are |
| LogRuns.OtherAliasIsScanned | src/main.rs:1126-1132 | credited as localhost, it is scanned again as 127.0.0.1 |
| LogRuns.LocalMachineOnce | src/main.rs:919-945 | over a history in which the first local name stays the same, the local machine is recorded once at most |
| LogRuns.CreditedIsNeverLost | src/main.rs:355-402 | a record credited once stays at its place in every later log |
| Admission.RunsKeepInv | src/main.rs:1261-1415 | every run of steps keeps: running tasks plus free permits equal the limit, and each host taken is running, finished or consumed |
| Admission.AdmissionIsSafe | src/main.rs:1261-1415 | in every interleaving the limit holds, hosts are taken as a prefix of the list, none twice, none lost without a permit |
| Admission.RefillHasPermit | src/main.rs:1261-1415 | when a result has been taken there is a free permit, so the branch without one is dead |
| Admission.ReportedBelow | src/main.rs:1261-1415 | reports come from hosts of the list, one each |
| Admission.ReportedExactly | src/main.rs:1315-1360 | for every run: the reporting hosts are exactly those whose result was taken and whose task returned a report, results are taken in the order of their events and of completed tasks only |
| Admission.CompletesOnce | src/main.rs:1340-1360 | no task ends twice |
| Admission.ExitReportsExactly | src/main.rs:1340-1360 | without an interrupt the reporting hosts at exit are exactly those whose task returned a report, and every host's task completed |
| Admission.ServesAtTheLimit | src/main.rs:1377-1402 | until an interrupt the serving loop keeps as many tasks as the limit allows while hosts remain |
| Admission.InterruptStopsAdmission | src/main.rs:1300-1340 | from an interrupt on no further host is taken |
| Admission.ExitMeansAllConsumed | src/main.rs:1261-1415 | without an interrupt the loop ends only with every host's result consumed exactly once |
| Admission.NeverStuck | src/main.rs:1261-1415 | until it has exited some step is possible that is neither an interrupt nor an abort |
| Admission.EveryRunIsShort | src/main.rs:1261-1415 | no run is longer than three steps a host and four more, so the loop terminates under any schedule |
| Admission.ZeroLimitScansNothing | src/main.rs:1267-1270 | with a limit of zero the loop would end at once, why the limit is needed above |
| Scoring.ComputeScore | src/scoring.rs:3344-3367 | three saturating bytes give, for every finding list, the true sum of the live weights capped per category, and a total of at most 100 |
| Scoring.SumIsMonotone | src/scoring.rs:3349-3358 | more findings never lower a category, wherever they stand |
| Scoring.SumSplits | src/scoring.rs:3344-3360 | a finding counts with its weight in its own category while it is not suppressed, and nowhere else |
| Scoring.ScoreIgnoresOrder | src/scoring.rs:3344-3367 | the score is the same for every order of the findings |
| Scoring.VerdictReadsLive | src/scoring.rs:3290-3307 | filtering the live findings first changes no flag of the verdict |
| Verdicts.VerdictMeaning | src/scoring.rs:3383-3453 | compromised if and only if a live finding has one of the sixteen ids; critical if and only if not that and a live finding has one of the nine ids or three live ones are SEC-007 |
| Scoring.SuppressingNeverWorsens | src/scoring.rs:3298-3307 | suppressing findings never raises the rank of the verdict |
| Scoring.SuppressingLowersSums | src/scoring.rs:3349-3358 | suppressing findings raises no category |
| Acceptance.Load | src/acceptance.rs:111-147 | a policy loads with all its rules exactly if every rule is acceptable, and the error names the first that is not |
| PolicyFacts.LoadsExactly | src/acceptance.rs:123-145 | a policy loads if and only if every rule has an id outside the eighteen that cannot be accepted, ten bytes of reason and a date |
| Acceptance.Acceptances.FindRule | src/acceptance.rs:159-163 | the first rule for the finding whose host pattern matches |
| PolicyFacts.FirstRuleExactly | src/acceptance.rs:159-163 | the rule taken is the first for the finding whose pattern cuts the host name into pieces |
| Acceptance.Acceptances.Apply | src/acceptance.rs:152-187 | marks exactly the live findings with an unexpired first rule, notes exactly those whose first rule expired, touches no other |
| PolicyFacts.OverlayExactly | src/acceptance.rs:152-187 | a live finding gets exactly the mark of the first rule that applies and has not lapsed; a lapsed one leaves it alone and is noted |
| PolicyFacts.NotesExactly | src/acceptance.rs:167-173 | the notes name exactly the findings whose rule had lapsed, in order |
| Acceptance.PolicyCannotHideCompromise | src/acceptance.rs:48-50 | a loaded policy leaves Compromised as it was, never worsens a verdict, raises no category, rewrites no suppression |
| Acceptance.LaterAcceptsLess | src/acceptance.rs:166-173 | rules only expire: a report looked at later has no more findings accepted |
| Acceptance.SameMarksUnlessLapsed | src/acceptance.rs:152-187 | with no rule lapsing in between the two looks mark the same |
| Acceptance.CompromiseIsNeverOverlaid | src/acceptance.rs:128-133 | a loaded policy leaves a never-acceptable finding untouched |
| Acceptance.CompromiseRuleRefused | src/scoring.rs:3383-3386 | a rule for a compromise indicator refuses the whole file, wherever it stands |
| Acceptance.ExpiredRuleShadows | src/acceptance.rs:159-173 | behind an expired first match no later rule has any effect |
| Acceptance.AcceptedAreCounted | src/acceptance.rs:197-206 | the accepted count grows by exactly the findings the policy takes out of the live ones |
| Outcome.OutcomeBuilder.Judge | src/main.rs:172-176 | the verdict on the findings after the policy, by their ids: compromised exactly if the report itself holds a live compromise, whatever loaded policy is in force |
| Outcome.OutcomeBuilder.Add | src/main.rs:170-185 | one report folds its verdict under the policy and its coverage facts into the state |
| Outcome.OutcomeBuilder.AddEach | src/main.rs:170-185 | a stream of reports folds in arrival order |
| Outcome.OutcomeBuilder.Finish | src/main.rs:187-195 | none is missing if and only if at least as many reports came as were requested; otherwise missing and seen add up to the requested; the verdict is kept |
| Outcome.ExitCodeMeaning | src/main.rs:198-216 | each exit code read off the reports as a set: 3 if and only if some report is compromised, 0 if and only if all are clean, fully covered and as many as hosts were requested, and the three between |
| ExitFacts.ExitCodesByFindings | src/main.rs:198-216 | all five codes by the findings of the reports and what the run could see: 3 for a live compromise in any report, whatever loaded policy is in force |
| ExitFacts.FleetExitByFindings | src/main.rs:1042-1056 | the fleet run: 3 exactly with its log open and a live compromise in some report, 130 exactly for an interrupt without one |
| Outcome.ExitCodeIgnoresOrder | src/main.rs:169-216 | the order in which hosts answer never shows in the exit code |
| Outcome.CompromiseSurfacesExactly | src/main.rs:1042-1056 | the fleet run answers 3 if and only if its log could be opened and a report is compromised, interrupted or not |
| Outcome.PolicyKeepsCompromisedExit | src/main.rs:170-185 | for every loaded policy and every stream of reports exit code 3 stays what it was |
| Outcome.PolicyKeepsCompromise | src/acceptance.rs:48-50 | no loaded policy takes a compromise out of the findings of a report or puts one in |
| Outcome.ResumedExitExactly | src/main.rs:355-402 | re-read and judged later, the reports of a killed run answer 2, 3 and 4 exactly as before; the code changes if and only if it was 0 and some report is critical now, and then to 1 |
| Outcome.ResumedRunAnswersTheSame | src/main.rs:355-402 | as long as no rule lapses between the two looks at a report, the resumed run answers as the uninterrupted one |
| Outcome.LapsedRuleShows | src/acceptance.rs:153-173 | one report and one rule for which the uninterrupted run answers 0 and the resumed one 1 |
| MissingHosts.ListedExactly | src/main.rs:331-333 | the list names exactly the requested hosts that are not in the log, did not come back and are no name of a credited local machine |
| MissingHosts.ListedLength | src/main.rs:331-333 | how long the list is: the requested hosts less those the log credits, the free local names and the remote answers |
| MissingHosts.MissingCountAgreesExactly | src/main.rs:187-195 | for every log, repeated records and hosts not requested included, the exact condition under which count and list agree |
| MissingHosts.CountCoversListExactly | src/main.rs:187-195 | the count is at least the list if and only if there is no surplus over the free local names, or nothing to list |
| MissingHosts.OneLocalNameIsEnough | src/main.rs:1121-1133 | with a log that fits the request and at most one local name they agree |
| MissingHosts.CleanIsCompleteExactly | src/main.rs:198-216 | exit 0 means that every requested host answered, whatever the remote scans bring, if and only if no surplus report can stand in for a silent host |
| MissingHosts.FittingLogHidesNobody | src/main.rs:355-402 | a log with one record for each of some requested hosts meets that condition |
| MissingHosts.TwoLocalNamesDisagree | src/main.rs:1196-1204 | two local names: one host counted missing, none listed |
| MissingHosts.StaleLogHidesAHost | src/main.rs:395-396 | a record of a host not requested: exit 0, nothing counted, one silent host listed |
| Signing.SortObjectKeys | src/signing.rs:84-106 | the recursive rebuild computes the canonical form |
| Signing.CanonicalExactly | src/signing.rs:84-111 | two values have the same canonical form if and only if they are equal up to key order at every depth |
| Signing.SignedBytesExactly | src/signing.rs:108-112 | for every serialiser that writes different values differently, the signed bytes agree if and only if the values are the same up to key order |
| Signing.CanonIsCanonical | src/signing.rs:84-106 | the canonical form has sorted keys in every object and is the same value |
| Signing.CanonIsTheOnlyOne | src/signing.rs:84-111 | canonicalising is idempotent and its result is the only sorted value equal to the input |
| Signing.CanonMembersFacts | src/signing.rs:84-106 | every lookup in a rebuilt object finds the canonical form of what it found before |
| Signing.CanonItemsAt | src/signing.rs:84-106 | array order is left alone |
| Changes.Sort | src/compare.rs:1989-1995 | the changes sorted by severity, field, before and after |
| Changes.ChangeLessTotal | src/compare.rs:10-16 | any two different changes are ordered, one way only |
| Changes.ChangeLessTransitive | src/compare.rs:1989-1995 | the comparator is transitive |
| Changes.SortIsCanonical | src/compare.rs:1984-1995 | two sorted lists of the same changes are identical, so hash order cannot show |
| Ordering.LessExactly | src/compare.rs:1989-1995 | strings compare at the first place where they differ, a proper prefix first |
| DriftEntries.OrderExactly | src/compare.rs:10-16 | degraded before changed before improved, then field, before and after, absent texts first |
| Drift.PushForEach | src/compare.rs:988-1021 | one pass over a hash map pushes what each key yields, in whatever order it iterates |
| Drift.DiffStrSet | src/compare.rs:58-77 | appearances are degraded, disappearances improved, nothing else is pushed |
| DriftFacts.InDiff | src/compare.rs:80-2002 | every returned entry comes from one modelled section, and every entry of a section is returned |
| DriftFacts.DiffRebuilds | src/compare.rs:58-77 | from the earlier snapshot and the returned list both string sets of the later one can be rebuilt |
| DriftFacts.DiffSwaps | src/compare.rs:58-77 | the list for the swapped snapshots has additions and removals swapped |
| DriftFacts.ImprovedIsStrictLoss | src/compare.rs:988-1061 | a returned Improved entry with both sides belongs to a key whose bits, capabilities or missing directives strictly shrank |
| DriftFacts.ChangedKeysAreJudged | src/compare.rs:1560-1587 | every key in both snapshots whose value changed has its own returned entry, Degraded as soon as it gained anything |
| DriftFacts.EmptyDiffExactly | src/compare.rs:1984-2002 | the returned list is empty if and only if the snapshots agree on everything the modelled sections look at |
| DriftEntries.EntriesExactly | src/compare.rs:988-1061 | every entry of the returned list written out: for which keys it is there, with which field, texts and severity, new, gone and changed ones, and no other entry |
| DriftEntries.OneEntryEach | src/compare.rs:988-1061 | as many entries as differences: no key is reported twice and none passed over |
| DriftEntries.LastOfExactly | src/compare.rs:18-30 | the value of a key is that of its last entry |
| Drift.EscalatedOrWithin | src/compare.rs:1047 | the bitmask test is exactly the failure of containment |
| Drift.CompareReports | src/compare.rs:80-2002 | the modelled sections, sorted, with nothing added or dropped |
| Drift.DiffIsDetermined | src/compare.rs:1984-2002 | two snapshots have one diff, whatever order the maps iterate in |
| FleetDrift.IndexByHost | src/compare.rs:2005-2023 | a hostname stands for its last snapshot |
| FleetDrift.LastSnapshotExactly | src/compare.rs:2005-2023 | the last of the snapshots that carry the hostname, if any does |
| FleetDrift.Dedup | src/compare.rs:2025-2027 | the sorted names become strictly increasing and keep their elements |
| FleetDrift.CompareHost | src/compare.rs:2031-2070 | status and changes of one host from its one or two snapshots |
| FleetDrift.CompareMulti | src/compare.rs:2004-2073 | each hostname of either fleet exactly once, in strictly increasing order, compared, added or removed as membership says |
| FleetDrift.FleetDiffIsDetermined | src/compare.rs:2004-2073 | two fleets have exactly one comparison |
| FleetDrift.SwappedFleetDiff | src/compare.rs:2031-2064 | swapping the fleets keeps the hostnames and swaps added with removed |
| KeyOptions.ParseKeyOptions | src/scanners/access.rs:34-59 | the character loop with its quote and escape flags computes the parse |
| KeyOptions.ParseYieldsOptions | src/scanners/access.rs:34-59 | every parse is a list of trimmed, nonempty options without unquoted commas, balanced but for the last |
| KeyOptions.JoinedParses | src/scanners/access.rs:34-59 | every such list survives joining with commas and parsing |
| KeyOptions.ParseIsNormalForm | src/scanners/access.rs:34-59 | parsing is a normal form, and exactly the option lists survive join and parse |
| KeyOptions.ScanStaysSane | src/scanners/access.rs:34-59 | the scanner is escaped only inside quotes |
| QuoteGrammar.PiecesExactly | src/scanners/access.rs:34-59 | the texts without a separating comma are those of a grammar of plain characters and quoted stretches with escapes, closed or not |
| QuoteGrammar.OptionsExactly | src/scanners/access.rs:34-59 | the options are the trimmed, nonempty texts of that grammar |
| QuoteGrammar.PiecesParse | src/scanners/access.rs:34-59 | pieces of the grammar joined by commas parse to these pieces, trimmed, without the blank ones |
| QuoteGrammar.ParseExactly | src/scanners/access.rs:34-59 | every prefix is such pieces, so this says what every parse is |
| SshConfig.ExtractHosts | src/ssh_config.rs:78-199 | hosts and warnings are those of the reading by segments |
| SshConfig.Collect | src/ssh_config.rs:85-140 | the scan with one open block yields one block per Host line with the first HostName of its segment, and the right counts |
| SshConfig.BlocksAppend | src/ssh_config.rs:97-127 | one more directive opens a block, names the open one, or changes nothing |
| SshConfig.ScansExactly | src/ssh_config.rs:158-184 | a block yields a host exactly from its HostName, or from its first selected alias when that is no pattern |
| SshConfig.ExtractedHosts | src/ssh_config.rs:156-198 | exactly the hosts of the selected segments come out, none twice |
| ConfigText.BlankForm | src/ssh_config.rs:202-216 | `key value`: the first blank ends the keyword, which counts in any mix of case |
| ConfigText.EqualsForm | src/ssh_config.rs:202-216 | `key = value`: the first `=` ends the keyword |
| ConfigText.SilentForm | src/ssh_config.rs:85-90 | blank lines and comments mean nothing |
| ConfigText.BlocksExactly | src/ssh_config.rs:97-140 | one block per Host line, in order, with its aliases and the first HostName with a value before the next Host or Match line |
| ConfigText.SelectsExactly | src/ssh_config.rs:159-162 | an alias is selected if it is no negation and some pattern cuts it into pieces |
| ConfigText.NothingToScanExactly | src/ssh_config.rs:164-184 | nothing to scan exactly for a first selected alias that is a pattern, without a HostName |
| ConfigText.WarningsExactly | src/ssh_config.rs:117-192 | each HostName outside a block, and the numbers of Include lines, Match lines and blocks with nothing to scan |
| ConfigText.ConfigRoundTrip | src/ssh_config.rs:85-140 | every list of blocks, written out as Host and HostName lines, is read back as it was |
| Lists.FirstOccurrencesFacts | src/ssh_config.rs:194-197 | deduplication loses no host and keeps the order of first appearance |
| Mounts.MountIsNoexec | src/ssh_engine.rs:844-863 | the flag of the last of the longest mount points that cover the directory, false if none covers it |
| Mounts.CoversByComponents | src/ssh_engine.rs:854-856 | the root covers everything, any other point what it is a prefix of in whole path components |
| Mounts.CoveringPointsNest | src/ssh_engine.rs:854-859 | of two covering mount points the longer lies below the other; equal lengths mean the same path |
| Mounts.NearestDecides | src/ssh_engine.rs:843-863 | for an absolute directory the nearest covering mount decides, whatever the other lines say |
| Mounts.MountsAreNamed | src/ssh_engine.rs:848-853 | every line that is used names a mount point |
| Mounts.MountReads | src/ssh_engine.rs:848-861 | a line of four words or more: the second is the mount point, the fourth a comma list that may hold `noexec` |
| Mounts.MakeRemoteStaging | src/ssh_engine.rs:878-921 | /var/tmp unless it is noexec, then /tmp, with a directory one plain component below it, or the refusal that fits |
| Mounts.SaneDirIsOneComponent | src/ssh_engine.rs:868-876 | an accepted directory adds one component of letters, digits and dashes to its root |
| Mounts.SaneDirExactly | src/ssh_engine.rs:868-876 | accepted exactly: the root, `/owlzops-` and one to 32 ASCII letters or digits |
| Mounts.MadeDirExecutesAsItsRoot | src/ssh_engine.rs:884-888 | the made directory, no mount point itself, may execute exactly if the root may |
| Staging.RunsKeepInv | src/ssh_engine.rs:1044-1061 | every run of client, transport, upload shell and teardown, in any interleaving, keeps the protocol's invariant |
| Staging.OnlyOurFilesChange | src/ssh_engine.rs:805-833 | in every run only the staged directory, or the operator's path and its part, can change; without a copy nothing does |
| Staging.OperatorFileIsSafe | src/ssh_engine.rs:824-832 | the file at the operator's path is untouched until the mv landed and gone only after a reported upload |
| Staging.OnlyTheWholeBinaryRuns | src/ssh_engine.rs:1566-1588 | a copy run executes only the whole uploaded binary, only after exit status 0 |
| Staging.TornDownStaysEmpty | src/ssh_engine.rs:1227-1263 | a directory torn down successfully has nothing below it, in that state and every later one |
| Staging.TeardownAfterUploadIsComplete | src/ssh_engine.rs:1830-1842 | a successful teardown after a reported upload leaves neither binary nor part |
| Teardown.LeavingOrdersTeardown | src/ssh_engine.rs:1830-1842 | however the client leaves, the teardown of exactly what it staged is ordered, unless the transport is gone or a reported upload is to be kept |
| Teardown.CanLeave | src/ssh_engine.rs:1566-1588 | the client can leave at any time, and does on the status of a failed upload |
| Teardown.TeardownCanComplete | src/ssh_engine.rs:824-832 | an ordered teardown can be carried through from every state, and its target is then gone |
| Teardown.UploadCanBeRemoved | src/ssh_engine.rs:1830-1842 | after a reported upload that is not to be kept, leaving can go on to an end with no path of ours left |
| Teardown.EndsCleanExactly | src/ssh_engine.rs:1830-1842 | a run that ended without a lost transport, a failed teardown or giving up on it keeps a reported upload, whole, if and only if `--keep-binary` is given, and otherwise leaves no path of ours |
| Teardown.OnlyThePathChanges | src/ssh_engine.rs:805-833 | with an operator's path only it and its `.part` can change |
| Teardown.OnlyTheDirChanges | src/ssh_engine.rs:878-921 | without one only files below a directory made for the run can change |
| Staging.KeptBinaryStays | src/ssh_engine.rs:1830-1842 | with --keep-binary a reported upload stays, whole |
| Staging.UploadedIsWhole | src/ssh_engine.rs:1181-1203 | once exit status 0 has come back, what landed is the whole binary |
| Staging.LandedIsWholeUnlessDropped | src/ssh_engine.rs:1044-1061 | less than the whole can land only once the channel is gone, through the client or the transport |
| Staging.LandsWholeExactly | src/ssh_engine.rs:1044-1061 | for every configuration that copies, staged or operator-supplied, all runs land the whole binary or nothing if and only if the binary is empty |
| Staging.InterruptedUploadCanLand | src/ssh_engine.rs:1044-1061 | for each such configuration, a run interrupted by the client or by the transport alone that leaves an empty executable |
| Staging.UploadCanSucceed | src/ssh_engine.rs:1044-1203 | for every binary and every prior state of the host an undisturbed upload reaches exit status 0 |
| Retry.ScanRemoteHost | src/main.rs:446-527 | ends at the first attempt not worth retrying, at the last allowed one, or where the host's ceiling strikes; waits after each retried one; a report carries exactly one note per retry |
| Retry.RunsEndOnce | src/main.rs:446-527 | for every sequence of outcomes there is exactly one such end, within 1 + retries attempts |
| Retry.AllTransientUsesAll | src/main.rs:446-527 | a host that always fails in a way worth retrying is tried exactly 1 + retries times |
| Retry.WaitsAddUp | src/main.rs:546-553 | n waits add up to at least base * S(n) seconds and less than base * S(n) + n, S doubling to 31 at five and then growing by 16 |

## Left out

- Cryptography: HMAC of hashed host fields is a function parameter, Ed25519, SHA and base64 do not appear; a key is its type and blob.
- Known-hosts diagnostics: line numbers, the text of a conflict, `pinned_algorithms` and log sanitising.
- Pin writes are whole or not at all; two sessions to one host at the same time before either pins are not modelled, runs are sequential.
- Reading files: size caps, permissions, symlink flags and decoding errors are the flag `readable`; a file is its text.
- Patterns and host names are compared one character a byte; host names are ASCII, patterns beyond ASCII are not modelled.
- The JSON grammar and the serialiser: a pair of functions about which only the record facts are assumed (no raw newline, starts with `{`, no proper prefix parses, no outer blanks).
- The buffered writer: when a prefix reaches the disk is arbitrary, its internal buffer is not modelled.
- Signing.SortObjectKeys: the source rebuilds the tree in place through `&mut`; the method returns the rebuilt value, so in-place update is not captured.
- Drift.CompareReports: five sections, two string sets and three keyed maps, stand for about forty; the labels of changes are functions of the values, not their exact wording.
- Changes.Sort and FleetDrift.CompareMulti: the library sorts are modelled by insertion, which gives the same list by the uniqueness lemmas.
- `evaluate`: how findings arise from a report. A finding is its id, category, weight and suppression, and a report carries its findings.
- Expiry dates: parsing is a function parameter, time is an integer.
- Outcome: the path for a failed writer task and local-only runs beyond the shared exit code; warnings printed to the operator.
- `root_equivalent_groups_scan`, key-strength policy and sudoers parsing in src/scanners/access.rs: independent line checks.
- Reading the configuration file for src/ssh_config.rs:59-74 and the wording of its warnings, which are values with their counts.
- Staging: timers and signals are the steps that may happen, a lost transport takes effect at once on both sides; nobody else writes to the staged paths during a run, and two attempts whose shells overlap are not modelled.
- Staging.OperatorFileIsSafe: does not claim that an interrupted upload is cleaned up; when the mv lands and its status is lost the new file stays.
- Retry.WaitsAddUp: bounds the waits while no product of base and factor exceeds 64 bits; beyond that the source saturates, as `DelaySecs` does.
- DriftFacts.EmptyDiffExactly: speaks of the five modelled sections, because the others are not part of this model.
- DriftFacts.InDiff: speaks of the five modelled sections, for the same reason.
- TrustRuns.OtherHostsNeverMatter: assumes a pin file whose last line is terminated or blank, as every completed pin leaves it; OtherPins.OthersNeverMatterExactly covers every end for runs of other hosts, OtherPins.MixedRunsAgree the harmless ends for runs that mix hosts.
- TrustRuns.RunLoads: assumes such a pin file, for the same reason.
- TrustRuns.PinReloads: assumes such a pin file; PinTails.PinIsTrustedExactly and OtherPins.PinIsHarmlessExactly cover every other end.
- OtherPins.MixedRunsAgree: gives no converse for runs in which the host itself pins.
- PinTails.PinIsTrustedExactly: assumes a blob that differs from the key type and the name, as an encoded key does.
- LogRuns.HistoryKeepsRecords: follows histories in which every repair was possible, exactly those without a cut character, see LogRuns.RepairPossibleExactly.
- Admission: the per-host scan is one completion step with or without a report; progress bars and the teardown grace period are not modelled.
- Rendering of reports, scores and comparisons, command-line parsing, secrets, self-identity, process times, the verdict cache, confinement and data-loss scanners.
