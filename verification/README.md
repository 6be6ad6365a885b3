# Verification of hub-core

hub-core is the firmware of a gardening hub. It pulls motor commands from a backend, hands each
one to the right probe over BLE, and reports back what became of it. This project models the
decisions that the firmware takes and proves what holds over all of its runs.

A run is any sequence of poll windows, probe sessions, probe results and dispatch completions.
The clock, the acknowledgement service, the pulled commands and the radio are outside decisions:
the clock reads and the outcomes of acknowledgements come from an `Oracle`, and every theorem
quantifies over it; pulled commands, write outcomes and result bytes are inputs of the steps. A
hypothesis on the clock (`ClockNeverGoesBack`) appears only where a theorem needs it.

## Layout

| file | subject |
|---|---|
| Machine.dfy, Wrappers.dfy, Texts.dfy | machine integers, the oracle, options, splitting text |
| Uuid.dfy | UUID parser and printers |
| MotorWire.dfy | the 30-byte command frame and the 23-byte result frame |
| CommandDedup.dfy | the duplicate filter against a history that is never pruned |
| Hub.dfy | the delivery state machine as functions: moves, steps, runs |
| CommandPoller.dfy, MotorSession.dfy | the objects and loops of the source, proved equal to those functions |
| Tallies.dfy, Tails.dfy | counting in the log, and what one move adds to it |
| DedupSlots.dfy, Conservation.dfy, AdmissionLife.dfy, ProbeReports.dfy, DeliveryOrder.dfy | what every move keeps |
| HubSafety.dfy, RetryWindow.dfy, TruthfulReports.dfy, SettledByDeadline.dfy | what holds over every run |
| Readmission.dfy, Rewriting.dfy | exactly when a command is let in again, and when it is written again |
| HeadOfLine.dfy | the command at the head of a probe's line |
| SessionCredit.dfy, SessionReports.dfy | one session: what it credits, and all that it logs |
| SweepBound.dfy, PollWindows.dfy | one poll window: the sweep, and every pulled command |
| Correlation.dfy | one echo of an identifier |
| Advertisement.dfy, ProbeScan.dfy | advertisement parsing and the scan callback |
| ProbeList.dfy, WifiCredentials.dfy | the published probe list and the credential cell |
| HubIdentity.dfy, BuildIdentity.dfy | persistent identity across power loss, and its generation |

The functions of Hub.dfy are cut into moves, one for each iteration of a loop of the poller or
each call in a session. An invariant kept by every move therefore also holds between the
iterations of the loops that take the pending list away and rebuild it.

## Where an expected property is false

- The pending list and the set of commands in progress do not always agree. A probe result that is
  acknowledged finishes its command without removing it from the list. `HeardCommandStaysPending`
  gives such a run; `MoveUpsetsCountExactlyWhen` says that, of all moves and for every command,
  exactly that one upsets the agreement; `SlotsInEveryRun` states it for all other commands.
- A command may be written twice. A terminal result, even about another command, skips the
  completion of the write just made (`TerminalResultLeavesCommandOffered`). `CommandWrittenTwice`
  gives such a run, with any poll window in between. `WrittenAgainExactlyWhen` gives the condition,
  whatever poll windows, other sessions and results come before the next session that can write: a
  terminal result was heard, the write was not acknowledged, or the delivery report did not get
  through. Otherwise the admission is never written again in any continuation
  (`NeverAgainOnceItLeaves`), and no run writes an admission after settling it
  (`NoCommandVanishes`).
- Acknowledging "executing" silences the outcome that follows: a result is offered to the backend if
  and only if its status is 4 to 7 and no earlier result on that command got through
  (`FirstResultThroughIsTheOnlyOne`), and once one has, no later result changes anything
  (`PassedOnResultIsFinal`).
- The poller and the writer agree on what has expired if and only if the deadline is positive
  (`PollerAndWriterAgreeExactlyWhen`). A deadline of zero or less means "never" to the poller and
  "already" to the writer (`NonPositiveDeadlineIsReportedExpired`): `QueuedThenReportedExpired` gives
  the run that queues such a command and then reports it expired.
- The commands for one probe do not always make progress. One whose identifier is no UUID is queued
  like any other, and blocks every later command for its probe until its deadline
  (`HeadOfLineBlocks`, `BadCommandBlocksItsProbe`).
- The echo of an identifier that is not spelled canonically does not find its own command
  (`EchoFinishesItsCommand` holds if and only if the spelling is canonical).
- The duplicate filter can let a finished command in again if the clock goes back
  (`ClockJumpReadmits`). Under any clock, its answers are those of the full history if and only if it
  is never asked for a command whose finish is inside the window although an earlier prune since
  then lay beyond it (`PruningInvisibleExactlyWhen`); over every run of the hub, a finished command
  is let in again if and only if some prune since that finish lay more than 300000 ms after it
  (`ReadmittedExactlyWhen`).
- A token override is stored without a claim (`OverrideIsNotClaimed`): exactly when it is new and
  power lasts to write it (`UnclaimedTokenExactlyWhen`, `TokensAlwaysClaimedExactlyWhen`). A claim whose token could not be written is
  repeated (`InterruptedClaimIsRepeated`; the backend grants a claim once, so the second answer
  presupposes a revocation, and without one the hub stays without a token, `NoTokenWithoutAnswer`):
  exactly when power was lost just before that write
  (`ClaimLostExactlyWhen`, `ClaimRepeatedExactlyWhen`).

Where code and comments differ, the model follows the code. The comment at src/persist.rs:34-35
calls the seeding of the identity pair atomic, but it is two writes; the pair is consistent all the
same (`StoredPairFromOneImage`). The advertisement format in the repository's README.md lists two
markers and one form; the code accepts a third marker and a short form without a name.

## Model

| member | source | states |
|---|---|---|
| Uuid.ParseUuidCompactBytes | src/ble.rs:789-826 | Parsing succeeds exactly for the texts whose non-hyphen characters are 32 hexadecimal digits, and then the buffer holds the bytes those digits spell. |
| Uuid.ExpandCommandId | src/polling.rs:451-472 | The loop prints the canonical 8-4-4-4-12 form, which is defined by position and not by the loop. |
| Uuid.CommandIdLabel | src/ble.rs:105-128 | The second printer prints the same canonical form, so the two agree on all inputs. |
| Uuid.ParseOfCanonical | src/ble.rs:789-826 | Printing then parsing gives back the 16 bytes. |
| Uuid.CanonicalInjective | src/polling.rs:451-464 | Two identifiers with the same text are the same identifier, so a printed identifier is a usable key. |
| Uuid.CanonicalIsCanonical | src/polling.rs:451-472 | The printed form has 36 characters, hyphens in the four places, and lowercase digits elsewhere. |
| Uuid.CanonicalOfParse | src/ble.rs:105-115 | Printing a parsed text yields the canonical form of the same digits, in lower case. |
| Uuid.PrintedParseIsIdentityExactlyOnCanonical | src/polling.rs:451-464 | Parsing then printing gives back a text if and only if it is canonical. |
| Uuid.UuidTextExactly | src/ble.rs:789-826 | A text parses if and only if it consists of hyphens, wherever they stand, and 32 characters from 0-9, a-f and A-F. |
| Uuid.ParseIgnoresCase | src/ble.rs:801-806 | A text and its lowercase form parse alike. |
| Uuid.HexSpelled | src/polling.rs:451-472 | Each byte is printed as two digits out of 0123456789abcdef, the high one first. |
| MotorWire.CommandFrameRoundTrip | src/config.rs:23-46 | Thirty bytes decode at the documented offsets to a frame exactly when they encode it, so the fields tile the payload. |
| MotorWire.EncodedRequestMeansRequest | src/ble.rs:295-330 | A supported action is encoded exactly for a UUID whose deadline is ahead; the frame carries action, identifier, the duration clamped to 0..5000, and a time to live of 1 to 2^32-1 ms that ends by the deadline. |
| MotorWire.MotorResultRoundTrip | src/ble.rs:523-551 | A 23-byte result parses to a result exactly when it encodes it and does not name the nil identifier. |
| MotorSession.FillCommandBuffer | src/ble.rs:317-329 | Filling the zeroed buffer field by field at the source's offsets yields the side-by-side encoding. |
| MotorSession.BuildMotorCommandPayload | src/ble.rs:295-330 | The result for the clock value read, and that the clock is read only for an encodable request. |
| MotorSession.WriteMotorPayloadToService | src/ble.rs:463-502 | At most one write and three clock reads; the outcome and the log entry the state machine prescribes; nothing of the poller changes. |
| MotorSession.RunSession | src/main.rs:177-258 | The session's calls, in the source's order, have the effect of the state machine's session step, whose log SessionLogExactly spells out. |
| MotorSession.RunHub | src/main.rs:90-282 | The objects, driven from their start through any sequence of steps, are in the state the run prescribes, so every theorem over runs is one about them. |
| CommandDedup.BeginRefines | src/polling.rs:600-620 | With the table a pruned view of the history, the answer is the history's answer and the view stays faithful. |
| CommandDedup.FinishRefines | src/polling.rs:622-627 | Finishing keeps the table a pruned view of the history. |
| CommandDedup.PrunedTableAnswersLikeHistory | src/polling.rs:599-628 | Over every operation sequence, under a clock that never goes back, all answers equal those of a history that is never pruned: already processed within 300000 ms of the last finish, else in progress, else new. |
| CommandDedup.ClockJumpReadmits | src/polling.rs:615-620 | Without that hypothesis the answers differ: a concrete clock readmits a finished command. |
| CommandDedup.AnswerDiffersExactlyWhen | src/polling.rs:600-620 | Under any clock, an answer is not the history's if and only if the last finish is inside the window and an earlier prune since it lay beyond the window. |
| CommandDedup.PruningInvisibleExactlyWhen | src/polling.rs:599-628 | Over every operation sequence and any clock, all answers equal those of the full history if and only if that never happens. |
| CommandPoller.CommandDedupSet.PruneOld | src/polling.rs:615-620 | One clock read, and exactly the entries within the retention window remain. |
| CommandPoller.CommandDedupSet.Begin | src/polling.rs:600-613 | The answer and the new filter state. |
| CommandPoller.CommandDedupSet.FinishCommand | src/polling.rs:622-627 | The command leaves the ones in progress, is stamped with the first of two clock reads, and the table is pruned with the second. |
| CommandPoller.Poller.PollWindow | src/polling.rs:47-70 | The sweep, then every pulled command offered in order; only the sweep when the pull failed. |
| PollWindows.PollOffersExactlyThePulled | src/polling.rs:53-69 | For every state and pull, the commands admitted or refused in a poll window are, in order, exactly those pulled, none if the pull failed, and all after the sweep. |
| PollWindows.OfferExactly | src/polling.rs:188-301 | From any state: a command the filter lets in is reported expired if its deadline has passed, else reported failed if its action is unknown or a run of negative length, else queued last with action 0 for a stop and 1 for a run and its own fields; one not let in is only noted. |
| PollWindows.JudgeExactly | src/polling.rs:388-420 | The sweep reports an entry expired, finishes it and drops it if and only if its deadline is positive and at or before the clock read. |
| CommandPoller.Poller.PeekPendingForProbe | src/polling.rs:72-85 | Nothing exactly when no command for the probe is pending, else the first one. |
| CommandPoller.Poller.CompleteDispatchedForProbe | src/polling.rs:87-118 | The rebuilding loop settles the first command for the probe and leaves all others in place. |
| CommandPoller.Poller.ApplyProbeMotorResult | src/polling.rs:120-186 | The state machine's step for a probe result. |
| CommandPoller.Poller.StorePolledCommand | src/polling.rs:188-301 | The state machine's step for an offered command: duplicates skipped, expired and unusable ones reported and finished, others queued last. |
| CommandPoller.Poller.DispatchPendingCommand | src/polling.rs:303-386 | The command is kept exactly when the write failed or the report of a delivery did not get through. |
| CommandPoller.Poller.ExpirePendingCommands | src/polling.rs:388-420 | The loop that takes and rebuilds the list has the effect of judging the entries in place, one after another. |
| Hub.RunIsMoves | src/polling.rs:47-186 | Every run is a sequence of moves, so what all moves keep holds after every run and between loop iterations. |
| DedupSlots.MoveKeepsSlot | src/polling.rs:87-420 | Every move keeps: not both in progress and finished; in progress implies pending; pending at most once more than in progress; unless a probe's result was passed on, pending exactly once if in progress and not at all otherwise. |
| DedupSlots.MoveUpsetsCountExactlyWhen | src/polling.rs:87-420 | For every command, a move breaks the agreement of pending and in progress if and only if it is a probe result, statuses 4 to 7, that gets through on that command for the first time while it is in progress. |
| DedupSlots.HeardCommandStaysPending | src/polling.rs:174-176 | A run after which a finished command is still pending. |
| HubSafety.SafeAfterMoves | src/polling.rs:47-420 | All invariants, for all commands and all admissions, hold after any sequence of moves, hence inside the loops too. |
| HubSafety.SlotsInEveryRun | src/polling.rs:47-420 | The slot invariant over every run: no slot leaks and no double entry; where a probe's result was passed on, at most one entry more than in progress. |
| Conservation.MoveKeepsBalance | src/polling.rs:188-420 | Every move keeps, for each command and for each single admission: admissions = entries pending + settling acknowledgement attempts. |
| HubSafety.AdmissionsAddUp | src/polling.rs:188-420 | Over every run, the admissions of a command equal its pending entries plus its settling attempts. |
| HubSafety.NoCommandVanishes | src/polling.rs:188-420 | Over every run, each single admission is either pending, in one entry, and not settled, or not pending and settled by exactly one attempt (expired, failed, or a delivery report that got through); that attempt names its command and probe, and nothing is written or reported on the admission afterwards. |
| AdmissionLife.MoveKeepsLives | src/polling.rs:188-420 | Every move keeps: nothing mentions an admission after it is settled, and each of the hub's acknowledgements names the command and probe of the admission it is on. |
| AdmissionLife.GoneForGood | src/polling.rs:72-118 | An admission that is no longer pending never returns, and is never written or reported on again, in any continuation. |
| ProbeReports.PassedOnFaithfully | src/polling.rs:128-176 | Passing a result on is attempted exactly for statuses 4 to 7 of a command with no result through so far, and recorded as applied exactly when the attempt gets through; the attempt has the probe's own status number, identifier and name, and the reason that status and reason code call for, in all cases. |
| ProbeReports.MoveKeepsRelayedOnce | src/polling.rs:132-176 | Every move keeps: the applied set is exactly the commands with one result passed on. |
| ProbeReports.UnsentResultIsRetryable | src/polling.rs:174-185 | A result whose acknowledgement fails leaves the poller as it was, and the retry can succeed. |
| ProbeReports.PassedOnResultIsFinal | src/polling.rs:132-134 | Once a result is through, then after any further steps every result on that command changes nothing, applied by itself or read in a session, and nothing more is passed on about it. |
| ProbeReports.MoveKeepsLastWord | src/polling.rs:132-176 | Every move keeps: after a result that got through, no other attempt to pass on a result on that command is in the log. |
| HubSafety.ProbeResultPassedOnAtMostOnce | src/polling.rs:120-186 | Over every run at most one probe result per command gets through. |
| HubSafety.FirstResultThroughIsTheOnlyOne | src/polling.rs:128-176 | After every run, a result is offered to the backend if and only if its status is 4 to 7 and no result on that command, "executing" included, got through before. |
| DeliveryOrder.MoveKeepsOrder | src/polling.rs:72-118 | Every move keeps: pending is a subsequence of the admissions, in order; no write to a probe overtakes an earlier admission; every frame written encodes its command. |
| DeliveryOrder.OfferedFirst | src/polling.rs:72-85 | The command offered for a probe is the earliest admitted of those pending for it. |
| DeliveryOrder.ActionByteExactly | src/polling.rs:239-263 | The action byte is 0 if and only if the command is a stop, 1 if and only if it is a run of no negative length, and absent for all others. |
| DeliveryOrder.PendingEncodesUnlessBadIdOrLate | src/ble.rs:295-330 | A pending command encodes exactly when its identifier is a UUID and its deadline is ahead. |
| HubSafety.DeliveredInOrder | src/polling.rs:72-118 | First in, first out per probe, over every run. |
| HubSafety.EveryWriteWithinDeadline | src/ble.rs:482-499 | Every frame ever written goes to the pulled command's probe, decodes to its identifier, to action 1 if and only if it is a run and 0 if and only if a stop, and to its duration clamped to 0..5000, has a positive deadline, and lives 1 to 2^32-1 ms and not past that deadline. |
| RetryWindow.MoveKeeps | src/polling.rs:599-628 | Every move keeps the table a pruned view of the finishes in the log. |
| RetryWindow.NeverReadmittedWithinWindow | src/polling.rs:599-628 | Under a clock that never goes back, no run admits a command within 300000 ms of any finish of it. |
| RetryWindow.FilterAnswersFromLog | src/polling.rs:600-613 | After every run the filter answers as the complete log of finishes calls for. |
| Readmission.FilterIsReplayOfLog | src/polling.rs:599-628 | Over every run and any clock, the filter is what the logged calls and clock reads make it, and every offer got the answer of the filter of that moment. |
| Readmission.FilterDiffersFromLogExactlyWhen | src/polling.rs:599-628 | After every run and under any clock, the filter's answer is not the log's if and only if the last finish is inside the window and an earlier prune since it lay beyond the window. |
| Readmission.ReadmittedExactlyWhen | src/polling.rs:600-620 | Over every run and any clock, a command offered again after it was finished is let in if and only if some prune from that finish to the offer lay more than 300000 ms after the finish. |
| TruthfulReports.SessionIsHonest | src/main.rs:177-258 | A session keeps all reports true of what came before them. |
| TruthfulReports.HubReportsAreTrue | src/polling.rs:216-236 | Over every run of the main loop each report names the command and probe of its admission; "sent to probe" follows an acknowledged write of that very admission to that probe, "expired" a clock read (and not some other question) made before the report, at or past the deadline, "failed" an admission without a usable action; each with its reason code. |
| SessionCredit.PeekStillHoldsAtCompletion | src/main.rs:233-258 | Neither the write nor the probe's result moves the pending list before the completion. |
| SessionCredit.SessionCreditsPeekedCommand | src/main.rs:177-258 | A session drops at most the command that was peeked, and writes and reports on no other. |
| SessionReports.SessionLogExactly | src/main.rs:177-258 | For every session, with or without a pending command, all that it logs, in order: one write if and only if it can write; one attempt to pass on the result read if and only if the bytes are a result of status 4 to 7, not of the nil identifier and of a command with none through, with that status, identifier, probe and reason, recorded if and only if it got through; then the report on the write, which a result of status 5, 6 or 7 skips. |
| SessionReports.TerminalResultIsPassedOn | src/main.rs:233-247 | A session that reads a result of status 5, 6 or 7 makes exactly one acknowledgement, which passes that result on, even with a command of its own to write; if it got through, the command it names is recorded and no longer in progress. |
| SessionReports.HeardTerminalExactly | src/ble.rs:117-119 | The completion is skipped if and only if the bytes read are a result of status 5, 6 or 7. |
| SessionCredit.SessionWithoutCommandOnlyHears | src/ble.rs:369-387 | Without a pending command for the probe nothing is written; at most a result is passed on. |
| SessionCredit.PeekedCommandLeavesExactlyWhen | src/main.rs:234-258 | The peeked command leaves the list if and only if no terminal result is heard, the characteristic is found, and the clock reads find it late or it is encodable, in time, acknowledged by the probe and its delivery report gets through; the question on which that report depends is named. |
| HeadOfLine.SessionWritesExactlyWhen | src/ble.rs:463-502 | A session writes the peeked command if and only if the characteristic is found, the command is encodable, and both clock reads lie before the deadline. |
| HeadOfLine.StaysFirst | src/polling.rs:72-118 | While its deadline is ahead, the first command pending for a probe stays the first through any steps that leave its probe alone. |
| HeadOfLine.HeadOfLineBlocks | src/ble.rs:482-502 | While its deadline is ahead, a first command that cannot be encoded stays first, and no run of poll windows, sessions and results writes anything to its probe. |
| HeadOfLine.BadCommandBlocksItsProbe | src/polling.rs:188-301 | Such a command, pulled first, is queued, and nothing pulled after it for its probe is written while its deadline is ahead. |
| Rewriting.NeverAgainOnceItLeaves | src/main.rs:234-258 | After a session in which the peeked command leaves the list, no continuation holds that admission again, writes it, or reports on it. |
| Rewriting.WrittenAgainExactlyWhen | src/main.rs:177-282 | Under a clock that never goes back, a command just written is written again by the next session with its probe that can, after any poll windows, results, sessions with other probes and sessions that miss the characteristic, if and only if a terminal result was heard, the write was not acknowledged, or the delivery report did not get through. |
| SessionCredit.TerminalResultLeavesCommandOffered | src/main.rs:234-258 | After a terminal result the same command is pending and offered in the next session. |
| SessionCredit.WriteThenTerminalResult | src/main.rs:234-258 | A session that reads a terminal result logs the write first and leaves the command pending. |
| Rewriting.CommandWrittenTwice | src/main.rs:234-258 | For every stop command with a UUID and a deadline ahead of the clock, a run of poll, session, any poll, session that writes one admission of it twice, both times acknowledged by the probe. |
| SessionCredit.WriterOutcomeExactly | src/ble.rs:482-501 | Under a clock that never goes back: late is reported as expired and never as a failed write; delivered exactly for a UUID in time with an acknowledged write. |
| SessionCredit.PollerAndWriterAgreeExactlyWhen | src/polling.rs:630-640 | The poller's expiry test and the writer's agree at any time if and only if the deadline is positive. |
| SessionCredit.NonPositiveDeadlineIsReportedExpired | src/ble.rs:482-484 | A deadline of zero or less never expires in the poller and is never written; the command leaves the list, reported expired, if and only if the session finds the characteristic and hears no terminal result. |
| SessionCredit.QueuedThenReportedExpired | src/polling.rs:216-300 | For every usable command with such a deadline, the run that queues it as live and then reports it expired, unwritten. |
| SweepBound.SweepKeepsLiveFrom | src/polling.rs:388-420 | The sweep keeps, in order, exactly the entries live at their own clock reads, which follow one another. |
| SweepBound.PollLeavesNothingOverdue | src/polling.rs:53-69 | Under a clock that never goes back, after a poll window no pending deadline lies at or before its start, whether or not the pull failed. |
| SweepBound.LiveCommandsSurvivePoll | src/polling.rs:53-69 | A command still live when the sweep ends is pending after the window. |
| SettledByDeadline.OverdueAdmissionIsSettled | src/polling.rs:388-420 | Under a clock that never goes back, after any run that ends with a poll window, an admission whose deadline lies at or before the window's start is not pending and was settled by exactly one report. |
| Correlation.EchoNamesCommand | src/ble.rs:523-551 | The echo of a written identifier parses back to it, is ignored exactly for the nil identifier, and prints as the original text exactly when that is canonical. |
| Correlation.EchoFinishesItsCommand | src/polling.rs:128-176 | An acknowledged echo finishes that command's slot and no other, if and only if its identifier is spelled canonically. |
| Advertisement.FullFormRoundTrip | src/ble.rs:640-696 | Parsing inverts marker, versions, name length, name and any trailing bytes, for every name up to 255 bytes; setup exactly for the setup marker or name. |
| Advertisement.ShortFormRoundTrip | src/ble.rs:652-669 | The short form takes the advertised name, or HH-PROBE-SETUP or HH-PROBE-A by its marker. |
| Advertisement.OnlyTheTwoForms | src/ble.rs:640-696 | Whatever parses has the company identifier and is one of the two forms. |
| Advertisement.MetaFromExactly | src/ble.rs:148-160 | An advertisement is taken for a probe with some metadata if and only if its data are the full or the short form of them, or are of neither form while its name is HH-PROBE-SETUP or HH-PROBE-A, then as version 0.0 and in setup mode exactly for the former. |
| Advertisement.NameAloneDecides | src/ble.rs:698-712 | Without data of either form the name alone decides: the two names, and no other. |
| Advertisement.MarkerOrderIrrelevant | src/ble.rs:714-728 | Trying the three markers in any order gives the same result. |
| ProbeScan.Scan.OnAdvert | src/ble.rs:147-226 | One callback: an advertisement that describes no probe (MetaFromExactly) is ignored; any other is appended, or upgrades its address in place. |
| ProbeScan.ScanProbeCandidates | src/ble.rs:134-232 | The scan returns the group-by of the probes that the advertisements describe, one for each that describes one, in order. |
| ProbeScan.FoldIsGroupBy | src/ble.rs:160-223 | For every sequence: one entry per address in first-seen order, with the first setup advertisement's metadata if there is one and the first advertisement's otherwise. |
| ProbeScan.GroupedIsFirst | src/ble.rs:166-176 | The entry for an address is its first setup advertisement, or if it has none its first of any kind. |
| ProbeScan.FirstSeenOrder | src/ble.rs:162-223 | Every accepted address has an entry, and the entries stand in the order in which the addresses were first seen. |
| ProbeScan.AddressesDistinct | src/ble.rs:162-165 | No address has two entries. |
| ProbeScan.SetupExactlyWhenSeen | src/ble.rs:166-176 | An entry is in setup mode exactly when some accepted advertisement from its address was. |
| ProbeList.EncodeSetupProbes | src/wifi_prov.rs:347-367 | The loop emits the newline-joined lines of the counted prefix. |
| ProbeList.LongestPrefixFits | src/wifi_prov.rs:347-367 | That prefix is the longest one: a prefix fits in 220 bytes exactly when it is no longer. |
| ProbeList.PrintedListReadsBack | src/wifi_prov.rs:350-363 | Splitting at newline, bar and dot recovers exactly the printed probes, for all version bytes, when their texts hold no newline or bar. |
| ProbeList.DecimalStartsWithZeroOnlyForZero | src/wifi_prov.rs:351-354 | Version numbers are printed without leading zeros. |
| WifiCredentials.PendingWifiCredentials.SetSsid | src/wifi_prov.rs:51-54 | A new SSID drops any password. |
| WifiCredentials.PendingWifiCredentials.TakeComplete | src/wifi_prov.rs:60-68 | A pair is taken exactly when both are present, and the cell is emptied. |
| WifiCredentials.PendingWifiCredentials.NextPendingCredentialsState | src/wifi_prov.rs:78-96 | The state reported and the cell left behind by a poll. |
| WifiCredentials.CredentialsNeverMixed | src/wifi_prov.rs:50-96 | Over every interleaving a poll takes a pair if and only if it is the latest SSID and the latest password, the password written after that SSID, with nothing taken since. |
| WifiCredentials.WaitsForWhatIsMissing | src/wifi_prov.rs:78-96 | Over every interleaving, the state that a poll reports is complete, waiting for a password, waiting for an SSID or empty exactly by which of the two has been written and is still open. |
| WifiCredentials.EarlyPasswordUnused | src/wifi_prov.rs:132-134 | A password written before an SSID is never paired with it. |
| HubIdentity.Storage.LoadOrGenerateCreds | src/persist.rs:21-48 | The stored pair, or the image's pair written identifier first, with power lost before either write. |
| HubIdentity.Storage.ProvisionHub | src/main.rs:430-464 | The identifier and token in use and what is stored, for every point at which power may be lost. |
| HubIdentity.CredentialsExactly | src/persist.rs:21-48 | The credentials returned are the pair stored afterwards, secret included: the stored one if complete, else the image's; none if and only if power is lost before both are written. |
| HubIdentity.BootSucceedsExactlyWhen | src/main.rs:430-464 | For every storage, image and answer, a boot hands out a token if and only if it gets its pair and the override is stored or can be, or without one a token is stored or is granted and can be stored. |
| HubIdentity.BootHandsOutWhatIsStored | src/main.rs:430-464 | The identifier and token handed out are the ones stored afterwards: the override if there is one, else the token stored before, else the one claimed. |
| HubIdentity.BootsStayConsistent | src/persist.rs:21-61 | Over every sequence of interrupted boots of any images: a stored secret implies an identifier from the same image, and a stored token a complete pair. |
| HubIdentity.StoredPairFromOneImage | src/persist.rs:29-47 | A complete pair comes from one image. |
| HubIdentity.StoredPairNeverChanges | src/persist.rs:29-32 | A complete pair never changes. |
| HubIdentity.StoredTokenWasClaimed | src/main.rs:445-462 | Without overrides, a stored token was claimed for the stored identifier. |
| HubIdentity.NoClaimAfterToken | src/main.rs:445-448 | Once a token is stored beside a complete pair no boot claims again, and without overrides it stays. |
| HubIdentity.ClaimsExactlyWhen | src/main.rs:430-464 | From any storage, a boot claims if and only if it has no override, no token is stored, the backend answers, and the pair is complete or power lasts for its two writes; the claim is for the pair stored then. |
| HubIdentity.ClaimLostExactlyWhen | src/main.rs:457-462 | A claimed token is lost if and only if power is lost just before its own write. |
| HubIdentity.UnclaimedTokenExactlyWhen | src/persist.rs:64-73 | A boot stores a new token without a claim if and only if its image has an override other than the stored token and power lasts to write it. |
| HubIdentity.TokenStaysClaimedExactlyUnless | src/main.rs:433-462 | A stored token that was claimed for the stored pair stays so at each boot unless, and only unless, a never claimed override is stored. |
| HubIdentity.TokensAlwaysClaimedExactlyWhen | src/main.rs:433-462 | Over every sequence of interrupted boots, the stored token was always one claimed for the stored pair if and only if no boot stored a never claimed override. |
| HubIdentity.ClaimOnceAnswered | src/main.rs:445-462 | While no token is stored, boots without an override claim if and only if one of them is answered. |
| HubIdentity.NoTokenWithoutAnswer | src/auth.rs:40-67 | A hub with a complete pair, no token and no override gets none while its claims are refused, as they are after a token was lost. |
| HubIdentity.ClaimRepeatedExactlyWhen | src/main.rs:445-462 | After a boot that claimed, later boots without an override of which one is answered claim again if and only if power was lost just before the token was written. |
| HubIdentity.OverrideIsNotClaimed | src/main.rs:433-437 | A concrete boot that stores an override without a claim. |
| HubIdentity.InterruptedClaimIsRepeated | src/main.rs:457-461 | Two concrete boots that claim twice. |
| BuildIdentity.GenerateUuidV4 | build.rs:103-117 | The stamped bytes in canonical form. |
| BuildIdentity.GeneratedUuidIsVersion4 | build.rs:103-117 | The text is canonical, shows version 4 and variant 10 (section 5.4 of RFC 9562), and keeps the other 122 random bits. |
| BuildIdentity.ParseIdentityFile | build.rs:73-89 | The loop returns the last value of each key, and nothing unless both are there; a carriage return is dropped only before a newline. |
| BuildIdentity.ParsedFileExactly | build.rs:73-89 | A file is read if and only if lines with both keys occur, and then each value is the rest of the last line that starts with its key. |
| BuildIdentity.LinesOneByOne | build.rs:76 | Lines end at a newline, which takes one carriage return with it; an unended last line keeps its own. |
| BuildIdentity.FileReadsBack | build.rs:56-62 | For values without newlines the written file reads back exactly when neither value ends in a carriage return. |
| BuildIdentity.GeneratedIdentityReadsBack | build.rs:38-66 | So a generated identity always reads back. |

## Left out

- gRPC transport, authentication calls, tokio runtimes and the radio/memory gate: only their outcomes appear, as inputs.
- BLE connections, characteristic lookup, Wi-Fi, SNTP and heap logging: foreign calls; a session appears as its probe identifier, write outcome and result bytes. Sessions that end before the reading is complete do not reach the poller and are no steps.
- Sensor value decoding and upload retries: single branches that do not touch the poller.
- Wi-Fi credentials in src/nvs_store.rs: two independent writes with no pairing promise.
- The numbering of the action enumeration, whose definition is not part of this model: a pulled action appears already decoded, with one case for unknown numbers.
- The write callbacks of src/wifi_prov.rs:136-158, which drop trailing NUL characters and ignore a write that is not UTF-8: the cell receives the texts they pass on.
- Log messages and reason texts; lossy UTF-8 repair: texts are their UTF-8 bytes.
- Random generation: the bytes are inputs.
- A clock past the year 292 million, where the conversion to 64 bits would wrap: the clock is a non-negative 64-bit value.
- Uuid.ParseUuidCompactBytes: one failure stands for the three error messages, and the buffer after a failure is not described, because no caller looks at either.
- MotorSession.FillCommandBuffer: byte widths and shifts on `u8` are arithmetic on integers from 0 to 255.
- ProbeList.EncodeSetupProbes: the lines are formatted before the loop instead of inside it, because formatting has no effect of its own.
- HubIdentity.Storage.ProvisionHub: a failing read or claim ends the boot; reads themselves do not fail in the model, since a failed read stops the boot as a power loss does.
