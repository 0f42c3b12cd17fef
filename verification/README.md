# VayuCell, verified

VayuCell keeps a small server running on a phone. This project models the parts of it that keep
state or write text they must later read back, and proves what holds of them over every input and
every run.

| area | files | what is modelled |
|---|---|---|
| evidence of replication and restore drills | `replica.dfy`, `receipt_grammar.dfy`, `evidence_file.dfy`, `durability.dfy` | the byte-cursor parser, its printer, the upsert over a file's text, and the rule that turns dated claims into a recovery point |
| battery supervisor | `battery.dfy`, `governor.dfy`, `shed.dfy`, `runtime.dfy` | the escalate-only governor, the latching outage ladder, and the tick that drives both |
| guest ledger | `guest.dfy`, `guest_statement.dfy`, `guest_record.dfy`, `guest_record_grammar.dfy`, `guest_run.dfy` | what the host has said, boot by boot, and its text form across restarts |
| credentials | `auth.dfy`, `enrol.dfy` | the store's text, enrolment, revocation and verification |
| fleet | `upgrade.dfy`, `primes.dfy`, `sha256_constants.dfy`, `sha256.dfy`, `sha256_laws.dfy`, `sealed.dfy` | the rolling upgrade, SHA-256 and HMAC as loops, and sealed verdicts |
| image manifests | `image.dfy` | construction, printing and parsing |
| durable writes and halts | `disk.dfy`, `durable_write.dfy`, `halted.dfy`, `revoke_write.dfy` | the write order on a medium that can lose power, and what is kept with it |
| encoding | `base64url.dfy` | base64url, and the secrets and nonces minted with it |
| shared | `wrappers.dfy`, `sequences.dfy`, `text.dfy`, `bits.dfy`, `bytes.dfy`, `arithmetic.dfy` | Rust's `str`, unsigned widths, bitwise operations, UTF-8 |

Code that changes state is a class or a loop here too. Each such method is proved against functions
on its inputs or its old state, and the theorems are lemmas about those functions. A Dafny `char` is
a Unicode scalar value, as a Rust `char` is; only the receipt parser walks bytes, and there a character
stands for the byte with its code. Unsigned numbers are bounded explicitly: `u32`, `u64`
and the percentages are ranges of `int`, sums that wrap are taken modulo 2^32, and sums
that saturate or overflow take their own branch. Words and bytes are numbers, and `bits.dfy` gives
the bitwise operations on their binary digits.

The governor takes readings, read failures and what the charge mechanism answers as inputs; the
ladder takes the time since mains were lost; durable writes take the step that the filesystem
refuses, if any; minting takes its random bytes.

## Where the code and its comments part

The model follows the code. These differences are proved, each as a lemma:

- A tick judges its reading only when enforcing the ceiling recorded no transition, so one hot
  reading may pass unjudged: `Runtime.HotTicks`, `Runtime.AtMostOneSkipped`, `Runtime.HotReadingSkipped`.
- An inspection that resumes a governor keeps its count of failed reads: `Runtime.InspectionKeepsBlindness`.
- A lag equal to the target needs attention; and a receipt aged exactly 300 seconds still gives a
  figure, while a figure aged exactly 300 seconds is no longer live: `EvidenceFile.Boundaries`.
- A device name that starts with `#` is enrolled into a line the store skips, and enrolment assumes
  that the file ends in a line feed: `Enrol.EnrolExactly` says exactly when it works.
- A guest record with facts beside an unknown boot is accepted, and may be unreadable once a boot is
  observed: `GuestRecord.UnknownBootMayBreak`.
- `Manifest::new` accepts texts with white space inside, which `parse` refuses after `render`:
  `ImageManifest.RoundTripExactly`.
- A sealed payload joins its fields with `|` and does not escape them: `Sealed.AmbiguousExactly`.
- Clearing a halt does not flush the directory, so a power cut may bring the halt back:
  `HaltRecord.ClearedMayReturn`.
- Recording a halt may create its directory, and flushes only what is in it. The first halt of a
  device may be recorded with `Ok` and lost with the power: `HaltRecord.OkBlocksExactly` says exactly
  when it is not, and `HaltRecord.FirstHaltMayBeLost` is that halt.
- A revocation flushes the directory only if the store's path has a directory part. In a store named
  without one a device may come back after `Ok`: `RevokeWrite.StaysRevokedExactly`,
  `RevokeWrite.BareNameReturns`.
- An enrolment flushes nothing to the medium, so a revocation right after one is not atomic
  (`RevokeWrite.NotAfterEnrolment`), and an append cut short may lock every device out
  (`Enrol.TornEnrolmentExactly`).

## Model

| member | source | states |
|---|---|---|
| Replica.Parser.Ws | core/src/replica.rs:290-294 | skips exactly the longest run of blanks at the cursor, and the cursor stays inside the text |
| Replica.Parser.ReadWord | core/src/replica.rs:419-442 | reads a quoted run of plain ASCII characters if there is one, and leaves the cursor just behind it |
| Replica.Parser.ReadNumber | core/src/replica.rs:444-467 | returns a number exactly when the digit run is non-empty, has no leading zero and fits 64 bits, and leaves the cursor behind it |
| Replica.Folded | core/src/replica.rs:460-466 | the checked fold returns the value of a digit run exactly when it is at most 2^64 - 1, wherever the overflow shows first |
| ReceiptGrammar.NumberExactly | core/src/replica.rs:444-467 | the numbers read are exactly those up to 2^64 - 1 in their one decimal form, up to the last digit of the run |
| Replica.Parser.ReadReceipt | core/src/replica.rs:341-414 | the slot-filling loop returns a receipt exactly when the object's fields, in any order and each at most once, assemble to it |
| Replica.AddField | core/src/replica.rs:360-380 | a field is refused as a repetition exactly when it came before, and otherwise fills only its own slot |
| Replica.RefusedField | core/src/replica.rs:354-386 | an object refused at one field is refused whatever follows it, so returning early loses nothing |
| Replica.Parse | core/src/replica.rs:140-166 | total on every text, and equal to the specification that the grammar is proved to decide |
| ReceiptGrammar.AssembleExact | core/src/replica.rs:388-413 | fields add up to a receipt exactly when they are distinct, name its kind and give each counter it requires |
| ReceiptGrammar.DocumentComplete | core/src/replica.rs:140-166 | any list of receipts, in any spacing between tokens and any order of fields, parses to exactly that list |
| ReceiptGrammar.DocumentSound | core/src/replica.rs:140-166 | every accepted text is such a document and means what was returned |
| ReceiptGrammar.ParserIsGrammar | core/src/replica.rs:140-166 | the parser returns a list exactly for the documents that mean it |
| EvidenceFile.ListRoundTrip | core/src/replica.rs:106-126 | the bracketed, comma-joined renders of any receipts with any 64-bit fields parse to exactly those receipts |
| EvidenceFile.RenderIs | core/src/replica.rs:106-126 | the printed form of each kind, character for character |
| EvidenceFile.UpsertTwice | core/src/replica.rs:179-188 | only an unreadable file refuses a claim, and making the same claim twice changes nothing |
| EvidenceFile.FileIsHeld | core/src/replica.rs:179-188 | after any sequence of claims from no file the text parses |
| EvidenceFile.HeldIsLast | core/src/replica.rs:179-188 | that text holds, for each kind, the last claim of the kind and nothing else |
| EvidenceFile.HeldExactly | core/src/replica.rs:179-188 | after any claims the list is the last claim, behind the last one of the other kind if there was one |
| EvidenceFile.LatestIs | core/src/replica.rs:191-195 | the receipt chosen is of the kind, has the greatest stamp, and is the last such; there is none exactly when no receipt is of the kind |
| EvidenceFile.RecoveryExactly | core/src/replica.rs:206-282 | a file raises no recovery concern exactly when its latest replication receipt satisfies completed <= now <= completed + 300 and covered <= now < covered + target, and the figure is looked at within five minutes |
| EvidenceFile.WholeSeconds | core/src/replica.rs:258-282 | for a target in whole seconds that is a window on the clock |
| EvidenceFile.StaleForever | core/src/replica.rs:258-282 | a receipt that has gone stale is a concern at every later second |
| EvidenceFile.NeverReassuring | core/src/replica.rs:206-255 | without a clock, without a file or with an unreadable one neither half is ever reassuring |
| EvidenceFile.PostureTells | core/src/replica.rs:206-227 | a file that cannot be read is told from one that is not there |
| EvidenceFile.RecoveryTells | core/src/replica.rs:229-246 | which recovery claim a readable file and a clock come to: no replica, an age nobody can establish, or the figure of the latest receipt |
| EvidenceFile.BackupTells | core/src/replica.rs:248-254 | nothing configured, nothing restored, and a drill are told apart by the kinds that are in the file |
| EvidenceFile.DrillExactly | core/src/durability.rs:393-402 | the drill half is proven exactly from the latest drill's stamp to thirty days after it |
| EvidenceFile.RunConclusions | core/src/replica.rs:179-255 | over any run of claims, with or without a clock and whenever it is looked at, both conclusions depend only on the last claim of each kind |
| EvidenceFile.Boundaries | core/src/durability.rs:141-177 | the two boundaries where 300 seconds and the target fall on either side |
| Durability.Concerns | core/src/durability.rs:515-550 | the concerns returned are exactly those raised, each once, in the order recovery, backup, shutdown, wear |
| Durability.SettledExactly | core/src/durability.rs:515-550 | there is no concern exactly when the figure is under five minutes old and below the target, the drill under thirty days old, the shutdown verified and the wear not unreliable |
| Durability.LiveExactly | core/src/durability.rs:141-150 | only a figure is live, and for exactly five minutes |
| Battery.DegreesExactly | core/src/battery.rs:72-74 | after a division that truncates, a whole-degree limit is reached exactly where the tenths say so, on both sides of zero |
| Battery.HealthExactly | core/src/battery.rs:235-254 | health is measured below a percentage exactly when 100 * full < percent * design, the design is positive and the product does not overflow; and unknown exactly when a capacity is missing or the product overflows |
| Battery.ClampedNearest | core/src/battery.rs:114-119 | clamping gives the percentage nearest to a value |
| BatteryGovernor.FirstIsWorst | core/src/governor.rs:409-471 | the first rule that fires is as severe as all five taken independently |
| BatteryGovernor.SeverityExactly | core/src/governor.rs:409-471 | which readings are as severe as each level, in degrees after the division and in percent where health was measured |
| BatteryGovernor.ThresholdsExactly | core/src/governor.rs:247-270 | which thresholds can be built, and which complaint comes first about the others |
| BatteryGovernor.ReadingRaisesToSeverity | core/src/governor.rs:409-471 | one reading moves the level to the worse of the level and the severity |
| BatteryGovernor.ReadingExplained | core/src/governor.rs:389-471 | a reading worse than the level takes it to its severity and is recorded with the threshold that was crossed; any other changes nothing but the count of failed reads |
| BatteryGovernor.SixtyAlwaysHalts | core/src/governor.rs:247-270 | no thresholds that can be built let a pack at 60 degrees or more escape a halt |
| BatteryGovernor.TemperatureBands | core/src/governor.rs:247-270 | with any thresholds that can be built and a healthy cell the severity is read off four bands of whole degrees, none above normal empty |
| BatteryGovernor.Governor.Escalate | core/src/governor.rs:389-402 | raises the level and records the transition, or changes nothing, and returns what it recorded |
| BatteryGovernor.Governor.Observe | core/src/governor.rs:409-471 | the chain of tests acts as the first firing rule and forgets failed reads |
| BatteryGovernor.Governor.Enforce | core/src/governor.rs:477-507 | derates when the ceiling cannot be set, cannot be read back or is read back higher |
| BatteryGovernor.EnforcedExactly | core/src/governor.rs:477-507 | a ceiling that was set and reads back at or below what was asked changes nothing; each of the three failures derates a governor that is normal, with its own cause on record |
| BatteryGovernor.Governor.ObserveUnreadable | core/src/governor.rs:516-530 | counts failures up to the greatest `u32` and derates from the third on |
| BatteryGovernor.BlindExactly | core/src/governor.rs:516-530 | from the third failed read on a governor that is normal derates, and the record names the count |
| BatteryGovernor.Governor.Inspect | core/src/governor.rs:543-554 | only a phone that lies flat comes back to normal, and nothing but the level changes |
| Runtime.Supervisor.Pass | core/src/runtime.rs:275-320 | one tick is enforcement, then judging unless that escalated, then the ladder; it reports the transition, the read error and exactly the rungs entered |
| Runtime.Supervisor.AdvanceShed | core/src/runtime.rs:335-343 | mains present restores the ladder, mains lost walks it down by elapsed time and charge |
| Runtime.LevelOverRun | core/src/runtime.rs:275-320 | over every run, from any state, the level is the maximum of where it started and the severities judged, derated if any enforcement failed, and derated if three reads in a row failed, those pending at the start included |
| Runtime.CountsBlindness | core/src/governor.rs:516-530 | while the governor is normal the failure count is the length of the failing run at the end, those pending at the start included, up to the greatest `u32` |
| Runtime.NeverFalls | core/src/governor.rs:389-402 | the level after a run is at least the level after any part of it |
| Runtime.AtMostOneSkipped | core/src/runtime.rs:286-288 | at most one reading of a run is not judged |
| Runtime.HotTicks | core/src/runtime.rs:275-320 | a reading at the hard stop halts on its tick exactly unless that tick's enforcement escalated from normal, and a second one right after it always does |
| Runtime.HotHalts | core/src/runtime.rs:275-320 | over any run one reading at the hard stop is enough to halt for good on a tick whose ceiling holds or that has no mechanism, and two in a row are enough on any |
| Runtime.FailsExactly | core/src/governor.rs:477-507 | an enforcement fails exactly when there is a mechanism and it was not set, not read back, or read back higher |
| Runtime.HotReadingSkipped | core/src/runtime.rs:286-288 | a concrete tick at 70 degrees that only derates |
| Runtime.RunRecords | core/src/governor.rs:389-402 | the transitions of a run form a strictly ascending chain from its first level to its last, so there are at most three |
| Runtime.InspectionKeepsBlindness | core/src/governor.rs:543-554 | an inspected governor derates on a read failure that a fresh one would wait out |
| Runtime.InspectionDecides | core/src/governor.rs:543-554 | a phone that lies flat is normal again and keeps everything else; a deformed one is halted and no run of ticks brings it back |
| Runtime.TicksShutDownExactly | core/src/runtime.rs:275-343 | over every run of ticks the ladder ends shutting down exactly when one tick on battery could not read the cell, read it at the reserve, or was of a node without a cell |
| ShedLadder.Ladder.WalkTo | core/src/shed.rs:413-432 | the loop enters exactly the rungs between the stage and the target, in order, and records them |
| ShedLadder.Ladder.OnTick | core/src/shed.rs:358-386 | the rungs returned are those between the stage and the rung that time and charge call for |
| ShedLadder.Ladder.Restored | core/src/shed.rs:400-406 | mains resume serving exactly from the announced rung |
| ShedLadder.LadderShape | core/src/shed.rs:358-432 | over any run the rungs returned are one announcement for each outage that began while the node was serving, and then a prefix of shed, quiesced, shutting down |
| ShedLadder.StageExactly | core/src/shed.rs:358-432 | where any run leaves a serving node: on the deepest rung called for once one past the announcement was, else serving while mains are present and announced while they are not |
| ShedLadder.ReasonTells | core/src/shed.rs:358-386 | the reason on record tells which of the four causes called for the rung, with its figures |
| ShedLadder.PlanExactly | core/src/shed.rs:218-236 | which plans can be built, and which complaint comes first about the others |
| ShedLadder.OutageDependsOnDeepest | core/src/shed.rs:254-262 | within one outage the rungs depend only on the deepest rung called for, so late, repeated or lost ticks change nothing |
| ShedLadder.StageByTime | core/src/shed.rs:222-262 | with any plan that can be built, an outage over which the cell holds takes the node exactly as far as its longest observation says |
| ShedLadder.ShutdownExactly | core/src/shed.rs:358-386 | the last rung is reached exactly by some observation of an exhausted cell, never by time alone |
| ShedLadder.NeverBackUp | core/src/shed.rs:400-432 | past the announcement no run goes back up |
| Guest.WireReads | core/src/guest.rs:269-307 | every claim reads back from its wire form |
| Guest.FromWireExactly | core/src/guest.rs:287-307 | a text is a claim exactly when it is its wire form or, for a ceiling, any spelling of the number that Rust parses |
| Guest.PushClaim | core/src/guest.rs:557-566 | the loop refuses a claim exactly when one about the same control is there |
| Guest.NewAttestation | core/src/guest.rs:423-432 | a statement is accepted exactly when no two claims are about one control, and keeps their order |
| Guest.Ledger.Observe | core/src/guest.rs:587-600 | replays change nothing, other boots become the one believed, and the answer says which case it was |
| Guest.Ledger.Establish | core/src/guest.rs:618-638 | a statement from an earlier boot is refused whole; otherwise each claim replaces what was held about its control |
| Guest.Ledger.Stands | core/src/guest.rs:642-661 | the loop finds the fact about the control and compares its boot with the one believed |
| GuestStatement.PartExactly | core/src/guest.rs:471-545 | a part is read exactly when it is blank, or a key and one of the spellings of its value with white space around each, and then adds that one word or nothing |
| GuestStatement.PartFaults | core/src/guest.rs:471-545 | a part is refused as contradictory exactly when it repeats the boot or a control, and as malformed exactly when it is no such part |
| GuestStatement.Parse | core/src/guest.rs:466-553 | the loop over the parts believes and refuses as `StatementExactly` says, with the first fault, and asks for a boot |
| GuestStatement.StatementExactly | core/src/guest.rs:466-553 | the statements believed are exactly the texts of such parts, in any order, that name one boot and no control twice, and they say exactly those claims |
| GuestRecord.Render | core/src/guest.rs:674-688 | the loop writes the header, the boot and each fact on its own line |
| GuestRecord.Parse | core/src/guest.rs:698-788 | the loop over lines is total and equal to the fold that the round trip is about |
| GuestRecordGrammar.RecordExactly | core/src/guest.rs:698-788 | the records read back are exactly the texts with the header whose other lines are blank, name the boot at most once or give a fact, no control twice and none ahead of the boot, in any order, spacing and spelling; and the record is what they say |
| GuestRecordGrammar.RecordFaults | core/src/guest.rs:698-788 | every other text is refused for its header, for the first line that is refused, or for a fact ahead of the boot |
| GuestRecordGrammar.LineFaults | core/src/guest.rs:709-770 | a line is contradictory exactly when it says a boot once more or a second fact about a control, and malformed exactly when its words say nothing |
| GuestRecordGrammar.PrintedRecord | core/src/guest.rs:674-688 | a record as it is printed |
| GuestRecord.SpellingsOfABoot | core/src/guest.rs:719-750 | a boot may be spelt with a `+` and with leading zeros, but not with a minus, with nothing or as zero |
| Text.SpellingExactly | core/src/guest.rs:726 | the texts that parse as a number are its digits behind any zeros and at most one plus sign, up to the greatest |
| Text.LinesExactly | core/src/guest.rs:699 | the lines of a text: cut behind every line feed, one carriage return before it dropped, and what stands behind the last one |
| Text.ClassesAre | core/src/auth.rs:207-221 | white space and control characters, by their code points |
| GuestRecord.RoundTrip | core/src/guest.rs:674-788 | a ledger survives being written and read back exactly when it holds one fact a control and none newer than its boot |
| GuestRecord.AcceptedIsWellFormed | core/src/guest.rs:698-788 | every text that is accepted gives such a ledger |
| GuestRecord.ObservingKeeps | core/src/guest.rs:587-600 | observing a boot keeps the ledger readable exactly when a boot was believed or no fact is from a later one |
| GuestRecord.EstablishingKeeps | core/src/guest.rs:618-638 | a statement keeps it readable exactly when it is refused or leaves no later fact standing, which is always so once a boot is believed |
| GuestRecord.UnknownBootMayBreak | core/src/guest.rs:698-788 | a record with facts beside an unknown boot reads back, and after observing a boot does so exactly when no fact is from a later one |
| GuestRecord.UnknownBootBreaks | core/src/guest.rs:698-788 | such a record that breaks |
| GuestRun.RestartKeeps | core/src/guest.rs:674-788 | every ledger reachable by observing, establishing and restarting reads back as itself |
| GuestRun.ObservedIsGreatest | core/src/guest.rs:587-600 | the boot believed is the greatest that any event named |
| GuestRun.StandingOverRun | core/src/guest.rs:642-661 | a control is attested exactly when its last accepted statement came from the greatest boot, void when from an earlier one, unknown when there is none |
| GuestRun.RefusedChangesNothing | core/src/guest.rs:618-638 | refused statements change nothing and the boot never goes back |
| Bytes.Utf8Injective | core/src/auth.rs:343-364 | two texts have the same bytes exactly when they are the same text, so comparing bytes compares secrets |
| Bytes.CodesExactly | core/src/auth.rs:343-364 | the bytes of a character are the one sequence of the syntax of RFC 3629 that adds up to it |
| Bytes.ByteLenIs | core/src/auth.rs:207-221 | the length of a name is counted in these bytes |
| Bytes.ConstantTimeEq | core/src/auth.rs:67-76 | the accumulated difference is zero exactly when the byte strings are equal |
| Auth.NameExactly | core/src/auth.rs:207-221 | the names accepted are exactly the single words of at most 64 bytes without control characters, kept as they are |
| Auth.NameErrors | core/src/auth.rs:207-221 | which complaint comes first about every other text |
| Auth.SecretExactly | core/src/auth.rs:127-138 | the secrets accepted are exactly the texts of 43 characters of the base64url alphabet, and the length is checked first |
| Auth.ReadLine | core/src/auth.rs:395-454 | trims, skips and splits one line, with every problem and its kind |
| Auth.SaysExactly | core/src/auth.rs:395-454 | a line is an entry, skipped or not of two fields as its words say |
| Auth.ParseStore | core/src/auth.rs:395-454 | the loop returns the entries in order, or the first problem and its line |
| Auth.StoreExactly | core/src/auth.rs:395-454 | a text is a store exactly when no line is bad and no name comes twice, and then holds its entries in order |
| Auth.StoreErrorExactly | core/src/auth.rs:395-454 | every other text is refused for the first line of it that is wrong, by itself or as a second entry of a device, with its number and the line that was first |
| Auth.Verify | core/src/auth.rs:343-364 | looks at every entry and answers with the last one that has the offered secret |
| Enrol.StoreFile.Enrol | cli/src/enrol.rs:93-136 | the order of refusals, the exact text appended, and that this is the step the run theorems speak of |
| Enrol.StoreFile.Revoke | cli/src/enrol.rs:151-187 | the order of refusals, the file with every other line, and that this is the step the run theorems speak of |
| Enrol.EnrolExactly | cli/src/enrol.rs:115-136 | for every readable text an enrolment adds exactly its device exactly when the name does not start with `#` and only white space follows the last line feed; otherwise nothing is added or the store cannot be read |
| Enrol.TornEnrolmentExactly | cli/src/enrol.rs:126-133 | an append cut short after any number of characters leaves a readable store exactly when nothing or at least the whole secret was written |
| Enrol.RevokeExactly | cli/src/enrol.rs:151-187 | on any readable store the device is found exactly when enrolled, every other line is kept in order up to line endings, and the new text reads as the store without it |
| Enrol.RunIsMap | cli/src/enrol.rs:93-187 | any run of enrolments and revocations from no file keeps a text that reads as exactly the map the same run builds |
| Enrol.VerifyIsMap | core/src/auth.rs:343-364 | after such a run with distinct secrets a secret is answered with a device exactly when the map gives the device that secret |
| RevokeWrite.Rewrite | cli/src/enrol.rs:172-187 | the steps of a revocation in order, with the flush of the directory only for a path that has a directory part; every state on the way is safe |
| RevokeWrite.StaysRevokedExactly | cli/src/enrol.rs:178-186 | once a revocation returned `Ok` the device stays revoked on every power cut exactly when the store's path has a directory part |
| RevokeWrite.BareNameReturns | cli/src/enrol.rs:178-186 | in any store named without a directory, a device that may come back after its revocation |
| RevokeWrite.StoreSurvivesExactly | cli/src/enrol.rs:172-187 | after `Ok` every power cut leaves the store without the device exactly when, besides, the directory's own entry was on the medium |
| RevokeWrite.AtomicExactly | cli/src/enrol.rs:172-187 | cut short by a fault or the power after any step, the store reads exactly as before or exactly as without the device, exactly when the store that was found was flushed |
| RevokeWrite.NotAfterEnrolment | cli/src/enrol.rs:126-135 | a store whose last change was an append is not flushed, so no revocation of it is atomic, while its `Ok` still holds |
| Upgrade.Plan.Advance | core/src/fleet.rs:193-214 | the loops drain what is overdue, start the next node if none is in flight, and return exactly the names drained |
| Upgrade.Plan.RecordReturned | core/src/fleet.rs:222-232 | marks the node in flight as done, and refuses exactly when there is none |
| Upgrade.AdvanceShape | core/src/fleet.rs:193-214 | what one advance does to a plan of settled, at most one in-flight, then pending nodes, case by case |
| Upgrade.DrainedExactly | core/src/fleet.rs:193-204 | a node is drained by an advance exactly when that comes more than 900 seconds after it was started |
| Upgrade.RunShape | core/src/fleet.rs:163-232 | every run keeps that shape, the nodes and their order |
| Upgrade.SafeRollout | core/src/fleet.rs:163-232 | at no moment are two nodes in flight, and done and drained are final |
| Upgrade.SettlesInTime | core/src/fleet.rs:193-214 | called more than the budget apart, n + 1 advances settle n nodes |
| Bits.AndDigit | core/src/fleet.rs:295-302 | `&` acts on each binary digit |
| Bits.XorDigit | core/src/fleet.rs:284-302 | `^` acts on each binary digit |
| Bits.OrDigit | core/src/auth.rs:67-76 | the inclusive or of the comparison acts on each binary digit |
| Sha256.RotrExactly | core/src/fleet.rs:284-301 | `rotate_right` gives the one word whose digits are the old ones moved down and around the end |
| Sha256.ShrExactly | core/src/fleet.rs:284-285 | `>>` gives the one word whose digits are the old ones moved down, with zeros behind them |
| Sha256.ChExactly | core/src/fleet.rs:295 | the choice function of FIPS 180-4 is the one word with the digit of the second word where the first has a one, else of the third |
| Sha256.MajExactly | core/src/fleet.rs:302 | the majority function of FIPS 180-4 is the one word whose digits two of the three words have |
| Sha256.Sigma0Exactly | core/src/fleet.rs:301 | the sum over `a` is the one word with the digits 2, 13 and 22 places up added without carry |
| Sha256.Sigma1Exactly | core/src/fleet.rs:294 | the sum over `e`, the same with 6, 11 and 25 |
| Sha256.Small0Exactly | core/src/fleet.rs:284 | the first sum of the schedule, with 7 and 18 around the end and 3 past it |
| Sha256.Small1Exactly | core/src/fleet.rs:285 | the second sum of the schedule, with 17 and 19 around the end and 10 past it |
| Primes.PrimesListed | core/src/fleet.rs:246-261 | the numbers that the constants are taken of are exactly the primes up to 311, in order |
| Sha256Constants.RoundConstants | core/src/fleet.rs:250-261 | the sixty-four round constants are the fractions of the cube roots of those primes, in order, as section 4.2.2 of FIPS 180-4 defines them |
| Sha256Constants.InitialWords | core/src/fleet.rs:274-277 | the initial words are the fractions of the square roots of the first eight primes, as section 5.3.3 defines them |
| Sha256.AppendPadding | core/src/fleet.rs:263-269 | the loop appends the fewest zeros that leave eight bytes to a block: the padding of section 5.1.1 |
| Sha256.Expand | core/src/fleet.rs:279-290 | the two loops fill the message schedule of section 6.2.2 step 1, though the source adds its terms in another order |
| Sha256.Mix | core/src/fleet.rs:291-312 | sixty-four rounds on eight variables compute step 3 of section 6.2.2 |
| Sha256.Compute | core/src/fleet.rs:248-327 | for every message the source's loops compute the hash of FIPS 180-4 |
| Sha256Laws.PadExactly | core/src/fleet.rs:263-269 | the padded message is the one text of whole blocks that holds the message, a one, the fewest zeros and the length in bits |
| Sha256Laws.ScheduleBackward | core/src/fleet.rs:283-290 | each word of the schedule is a sum of the sixteen after it |
| Sha256Laws.WindowTells | core/src/fleet.rs:279-290 | so any sixteen consecutive words tell the whole block |
| Sha256Laws.RoundsAre | core/src/fleet.rs:291-312 | of the eight variables six are only moved: after any number of rounds they are four neighbours each of two sequences, whose next values are sums taken modulo 2^32 once |
| Sha256Laws.CompressExactly | core/src/fleet.rs:291-320 | a block leads from one hash value to another exactly when the last four values of such sequences are the difference |
| Sha256Laws.NextHash | core/src/fleet.rs:278-320 | the hash value after one more block is exactly the one that block leads to |
| Sha256Laws.HashOfPadded | core/src/fleet.rs:263-327 | the hash is the digest of the value after all blocks of the padded message |
| Sha256Laws.StartsFromRoots | core/src/fleet.rs:271-277 | and the value before the first is the roots of the first eight primes, in order |
| Sha256Laws.DigestReads | core/src/fleet.rs:322-326 | the digest reads back, four bytes a word, as the eight words in order |
| Sha256Laws.PadInjective | core/src/fleet.rs:263-269 | below 2^61 bytes no two messages have the same padded blocks |
| Sealed.ComputeHmac | core/src/fleet.rs:329-343 | the key array and two hashes compute HMAC as section 2 of RFC 2104 defines it |
| Sealed.HmacExactly | core/src/fleet.rs:329-343 | for every key, hashed first when longer than a block: the hash of the key under 0x5c and the hash of the key under 0x36 and the text, the pads told digit by digit |
| Sealed.InnerTells | core/src/fleet.rs:329-340 | two keys of at most a block have the same inner block exactly when one is the other with zeros after it |
| Sealed.HexExactly | core/src/fleet.rs:370-374 | the text of a tag is the one lower-case hexadecimal text that reads back as it |
| Sealed.HexInjective | core/src/fleet.rs:370-374 | the hexadecimal tag determines the tag |
| Sealed.Seal | core/src/fleet.rs:367-381 | keeps the three fields and adds, in hexadecimal, the HMAC of the subject, a bar, the verdict, a bar and the date |
| Sealed.Verify | core/src/fleet.rs:386-389 | a record verifies exactly when its tag is the one its own fields and this key give |
| Sealed.SealThenVerify | core/src/fleet.rs:367-389 | every sealed verdict verifies under its own key |
| Sealed.AlteredExactly | core/src/fleet.rs:386-389 | a record changed after sealing verifies exactly when HMAC gives both payloads the same tag |
| Sealed.PayloadDetermines | core/src/fleet.rs:368 | among subjects without a bar the payload determines subject, verdict and date |
| Sealed.AmbiguousExactly | core/src/fleet.rs:368 | another subject or verdict has the same payload exactly when one of the two texts holds a bar |
| ImageManifest.NewIsConstructed | core/src/image.rs:153-173 | whatever is built has a ceiling and four trimmed texts, none of them blank |
| ImageManifest.NewExactly | core/src/image.rs:153-173 | what is built is exactly the five values without the white space around the texts, none blank, and a ceiling |
| ImageManifest.NewErrors | core/src/image.rs:153-173 | a missing ceiling is complained about first, then the first blank text |
| ImageManifest.ConstructedIsNew | core/src/image.rs:153-173 | and every such value can be built, from itself |
| ImageManifest.TakeLine | core/src/image.rs:254-288 | one line fills one slot or is refused, the checks in the order of the source |
| ImageManifest.Parse | core/src/image.rs:239-301 | the loop over lines and the slots come to what the fold over the lines says, with the first error |
| ImageManifest.ReadExactly | core/src/image.rs:254-288 | lines are read without complaint exactly when each is blank or gives a key a value, none twice, and what is read is exactly what they say |
| ImageManifest.FaultExactly | core/src/image.rs:254-288 | lines are refused exactly for the first that cannot be taken: refused by itself, a key given again, or a ceiling that is no number |
| ImageManifest.RefusalExactly | core/src/image.rs:259-279 | why words give no key a value: an unknown first word, nothing after it, or too much |
| ImageManifest.FinishErrors | core/src/image.rs:290-300 | of the keys not given the first is complained about, and a ceiling of zero after all of them |
| ImageManifest.TextFaults | core/src/image.rs:239-301 | a text is refused for its header, for the first line that cannot be taken, or for what the lines leave out |
| ImageManifest.ManifestExactly | core/src/image.rs:239-301 | a text parses to a manifest exactly when it has the header, every other line is blank or fits the manifest, every key is given and none twice |
| ImageManifest.RenderIs | core/src/image.rs:308-319 | the text of a manifest, character for character |
| ImageManifest.AcceptedRoundTrips | core/src/image.rs:239-319 | whatever text was accepted, its manifest renders to a text that parses to it again |
| ImageManifest.RoundTripExactly | core/src/image.rs:153-319 | a constructed manifest round-trips exactly when its four texts have no white space inside; the others are refused and never read as another manifest |
| ImageManifest.InnerSpaceIsRefused | core/src/image.rs:373-379 | such a manifest that can be built and not be read |
| Base64Url.AlphabetIs | cli/src/listen.rs:704 | the source's alphabet is the table of section 5 of RFC 4648 |
| Base64Url.SafeExactly | core/src/auth.rs:127-138 | the characters a secret may hold are exactly those of the alphabet |
| Base64Url.EncodeBytes | cli/src/listen.rs:703-720 | the nested loops compute the encoding of RFC 4648, chunk by chunk |
| Base64Url.Sextets | cli/src/listen.rs:712-717 | the shifts and masks take the four sextets of three bytes apart |
| Base64Url.DecodeEncode | cli/src/listen.rs:703-720 | an unpadded decoder gives back every byte string |
| Base64Url.EncodesExactly | cli/src/listen.rs:703-720 | encoder and decoder are inverse both ways: each byte string has one text |
| Base64Url.EncodeShape | cli/src/listen.rs:703-720 | n bytes give four letters for three, rounded up, all from the safe alphabet |
| Base64Url.MintSecret | cli/src/enrol.rs:37-47 | any 32 random bytes give a secret that passes its own checks and determines them |
| Base64Url.MintNonce | cli/src/listen.rs:685-697 | any 16 random bytes give a nonce that passes its own checks and determines them |
| Base64Url.NonceExactly | core/src/csp.rs:160-172 | a nonce is at least 22 characters of the alphabet, and its length is checked first |
| Disk.MediumExactly | cli/src/halted.rs:58-65 | what `MayLeave` says of a name is exactly what some power cut leaves under it, the loss of a directory nobody flushed included |
| Disk.SeenAfterRestart | cli/src/halted.rs:58-65 | after a power cut a directory that is there is on the medium, so a caller can tell by looking when the device starts |
| Disk.RenameAdds | cli/src/listen.rs:420-430 | the rename is the step that adds an outcome, the whole flushed content of the temporary, and it adds no other |
| Disk.FlushSettles | cli/src/listen.rs:432-435 | flushing the directory leaves a power cut one outcome for every name |
| DurableWrite.StageOldOrNew | cli/src/listen.rs:403-436 | after each step a power cut leaves the destination wholly old or wholly new, unchanged up to the rename and new after the last step |
| DurableWrite.LastStageLands | cli/src/listen.rs:403-436 | after the last step a power cut leaves the new content only, whatever stood there before and however unflushed it was |
| DurableWrite.StageUntouched | cli/src/listen.rs:403-436 | no step changes what is read, or may be left, under any other name |
| DurableWrite.Prepare | cli/src/listen.rs:403-417 | opens, writes and flushes in this order, stops at the step that fails, and every state on the way is safe |
| DurableWrite.TidiedExactly | cli/src/listen.rs:420-430 | a rename that fails leaves the temporary behind exactly when it is not removed |
| DurableWrite.Parents | cli/src/enrol.rs:178-181 | which paths have a directory part and which have nothing above them, as `Path::parent` gives it |
| DurableWrite.WriteDurably | cli/src/listen.rs:356-436 | refuses links before touching anything, returns `Ok` only if every step succeeded, is safe to cut at every state, and leaves only the new content once it returned `Ok` |
| HaltRecord.NewExactly | core/src/halt.rs:86-122 | a text is a halt exactly when it is a non-blank reason without control characters, with white space around it |
| HaltRecord.NewErrors | core/src/halt.rs:86-122 | a blank text is complained about first, then a control character |
| HaltRecord.RoundTrip | core/src/halt.rs:86-122 | what is recorded is read back as it was |
| HaltRecord.ServesExactly | core/src/halt.rs:154-178 | a device may serve, and a report may start at normal, exactly when the record was seen to be absent |
| HaltRecord.Read | cli/src/halted.rs:45-56 | absent, unreadable and standing are told apart as the filesystem tells them |
| HaltRecord.Record | cli/src/halted.rs:69-98 | makes the directory, then the same write order; a failed rename leaves the temporary; a bare name is never reported as recorded; safe to cut at every state |
| HaltRecord.BareNameKeepsOld | cli/src/halted.rs:94-98 | under a bare name a power cut still leaves whatever it could leave before, or the new record |
| HaltRecord.ClearRecord | cli/src/halted.rs:106-112 | removes the record, and one that is not there is no error |
| HaltRecord.RefuseIfHalted | cli/src/main.rs:431-442 | a start is refused exactly unless the record was seen to be absent |
| HaltRecord.Inspect | cli/src/main.rs:391-425 | only a phone that lies flat has its record removed, and success is reported only if it was |
| HaltRecord.EventKeepsProtected | cli/src/halted.rs:69-112 | no fault, later halt, power cut or failed clearing takes away the protection of a record |
| HaltRecord.FlatServes | cli/src/halted.rs:106-112 | a phone seen to lie flat, whose record could be removed, may serve at once |
| HaltRecord.HaltOutlivesThePower | cli/src/main.rs:74-78 | in a directory whose own entry was on the medium, a halt whose recording returned `Ok` blocks every start, over any run of faults, later halts and power cuts, until a phone seen to lie flat is inspected; and what stands is a recorded halt |
| HaltRecord.OkBlocksExactly | cli/src/halted.rs:69-98 | `Ok` blocks every later start exactly when the directory's own entry was on the medium before the call |
| HaltRecord.FirstHaltMayBeLost | cli/src/halted.rs:70-73 | on a device where nothing was ever kept, a halt that is recorded with `Ok` and gone after a power cut |
| HaltRecord.ClearedMayReturn | cli/src/halted.rs:106-112 | after clearing the device may serve, and a power cut leaves either no record or the old one, and may leave the old one |

## Left out

- Wording: error messages, evidence sentences, reports and the panel. Error kinds are kept; the
  payloads `found`, `value` and `words` of the manifest errors are not.
- `Thresholds::recommended`, `Governor::may_serve`, `ups_claim` and other accessors: they read one field.
- The cadence of the loop, the sampler and real clocks: a tick is an event, and elapsed time an input.
- Disk.Drive: a symbolic link is an entry for the file it leads to; a link that leads nowhere, whose
  target would be made in another directory, is not modelled.
- HaltRecord.OkBlocksExactly: assumes that nothing else writes the record, and that changes to one
  directory reach the medium whole and in the order they were made. The directories above the
  record's are one entry here: on the medium, made and not flushed, or absent.
- File modes.
- `Ledger`, `Governor` and `Ladder` objects are updated in place as in the source; the text files behind them are values, so two processes writing one file at once are not modelled.
- Enrol.StoreFile.Enrol: does not itself fail to mint or to append; the mint's random bytes are the
  `secret` it is given, and what a torn append leaves is `Enrol.TornEnrolmentExactly`.
- Enrol.StoreFile.Revoke: replaces the file in one step; the steps it takes, and what cutting them
  short leaves, are in `RevokeWrite`.
- Timing of `constant_time_eq` and the cryptographic strength of HMAC: only what they compute.
- Messages of 2^61 bytes and more keep the source's bit count modulo 2^64; injectivity of the padding is stated below that size, as FIPS 180-4 bounds it.
- Quorum arithmetic and roles of the fleet: short case splits.
- Checking a machine against a manifest: reads of `/proc` and comparisons.
- Vendor health words, charging state, thermal zones, tiers, wear, capability probing.
- The vault's quota and listing, the site, the HTTP server, headers, content policy beyond the nonce, the onion publisher, command-line arguments: not part of this model.
- `Guest::reconcile`, which reads the environment and the file and then calls the operations modelled here.
