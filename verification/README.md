# Session store: a verified model

This project models the durable protocols of a session store written in Go: one append-only
journal per session, command records moved by compare-and-swap, public gates with indexed
deadlines, a directory of Hosts, and verified object streams. Several processes work on these
at once, none of them shares a transaction with another, and any of them may stop between two
writes. The model follows the code branch by branch, and proves what the store promises over
every interleaving.

Clocks, lease grants, provider replies, digests and Core's validators are parameters: whatever
they answer, the theorems hold. SHA-256, UUID parsing and Core's `Validate` methods are
function-valued members; nothing is assumed about the digest anywhere.

`dafny verify dfyconfig.toml` checks everything.

## How it is laid out

| file | what it models |
|---|---|
| `Wrappers`, `Bytes`, `Clock`, `Storage` | results, machine words, instants, and the ordered index every record lives in |
| `Envelope`, `EnvelopeCodec` | the raw journal record and its strict frame |
| `JournalOwnership`, `JournalWriter` | grants, opening fences and appends; the writer object |
| `Recovery` | the one-pass scan of the journal for one command |
| `Inbox`, `InboxStore`, `RecoveryProtocol` | command records, their four transitions, and the two-store protocol |
| `Cursor`, `JournalReader` | opaque cursors and snapshot pages |
| `Disposition`, `DispositionStore`, `DispositionEvidence`, `DispositionProtocol` | the one-attempt lifecycle and its settlement |
| `Gates`, `GateProtocol`, `GateFence` | gate projections and deadline intents, exactly when a deadline is lost, and how far a fencing write reaches |
| `HostTargets`, `HostTargetSweep` | heartbeats, drains and the sweep |
| `Keyspace` | names, witnesses and the layout marker |
| `Consumption` | the durable consumer position |
| `ObjectVerifier`, `ObjectReader`, `ObjectMetadata` | streamed verification, its threads, and the metadata index |

Where an operation is a read, a decision and a write, the decision is a function of what was
read (`Inbox.Decide`, `Dispositions.Decide`, `Gates.PlanOpen`, `HostTargets.Decide`). The
imperative stores and the interleaved machines use the same functions, so a theorem about a
machine is a theorem about what the stores write. A machine's `After(run)` is the state a
schedule leads to; a theorem over `After(run)` is about every reachable state.

## What Hosts owe the command protocol

The store cannot check these; `RecoveryProtocol.Conforms`, `HonestCompletion`, the guard of
`Start` and `JournalOwnership.CurrentAtTipRead` state them, and nothing else is assumed.

- A prefix is appended only for a command whose own BeginApplying was answered to that same
  grant, under the record's identities, one application at a time; the next record after it is
  its effect, or another grant's fence.
- A grant's rejection of a command is serialized with its own appends: once it is in flight or
  sent, that grant applies the command no more.
- A completion at the claim's own epoch names an effect that Host's own append returned. A
  completion by a higher epoch is checked by the code, and is proved, not assumed.
- A grant is still the newest when `OpenJournal` reads the tip. The code does not re-check it:
  `JournalOwnership.StaleTipReadBreaksFenceOrder` is the run that goes wrong without it, and
  `FenceOrderKeptExactlyWhen` the exact condition.

## What callers owe the gates

- No resolve buries a gate's deadline intent once an open of that gate has met it
  (`GateProtocol.Quiet`). Keeping resolves and opens of one gate from overlapping is enough.
- Exactly what costs a gate its deadline, owed or not, is `GateProtocol.Loses`.

## Model

| member | source | states |
|---|---|---|
| JournalOwnership.EveryRunKeepsInv | journal.go:80-261 | through any interleaving of grants, tip reads, fences, appends, lost acknowledgements and closes, each grant has one block and a live writer stands at its own tracked record |
| JournalOwnership.LedgerIsBlocks | journal.go:98-141 | the ledger is a concatenation of contiguous per-grant blocks, each opened by that grant's only fence; the nearest fence names who wrote a record |
| JournalOwnership.CurrentRunsAscend | journal.go:98-127 | with every tip read taken under the newest grant, writers ascend along the ledger |
| JournalOwnership.LedgerOnlyGrows | journal.go:208-261 | no step rewrites or removes a record |
| JournalOwnership.FenceEndsLowerGrants | inbox_recovery.go:101-145 | a fence above a grant is permanent proof that the grant writes nothing after it |
| JournalOwnership.StaleTipReadBreaksFenceOrder | journal.go:98-127 | a concrete run in which a stale grant that reads the tip late fences below its successor |
| JournalOwnership.FenceOrderKeptExactlyWhen | journal.go:98-127 | a landing fence keeps the order if and only if what its own tip read covered held no fence above its grant, which the opener could have looked for and does not |
| JournalWriters.JournalWriter.Append | journal.go:208-261 | a writer that is closed, latched or without its lease appends nothing, a lost lease latching where the record was otherwise good; a good record goes in exactly when the ledger ends where the writer left it and the provider answers, is fenced if the ledger has moved, unknown if the answer is lost, and untouched by a definite failure; and every call is one step of the ownership machine |
| JournalWriters.JournalWriter.Offer | journal.go:252-260 | the append on the writer's own tracked sequence, and what each outcome does to the writer |
| JournalWriters.JournalWriter.Latch | journal.go:326-335 | exactly the three ownership failures are terminal |
| JournalWriters.JournalWriter.Close | journal.go:265-286 | idempotent, and gives the grant up |
| JournalWriters.OpenJournal | journal.go:98-127 | an open succeeds exactly when its fence lands on the tip it read; each other outcome is told apart |
| JournalWriters.OfferedIsStamped | journal.go:290-321 | what is offered is never a caller's fence, and a command-carrying record names the writer's own grant |
| JournalWriters.OfferedExactlyWhen | journal.go:218-256 | a record is offered exactly when it is no fence, claims no epoch of its own, has its public body in rule, the lease is held, both bodies are in place and it encodes; and it is the caller's record, its epoch the writer's where it carries a command; each refusal in order |
| JournalWriters.OthersLeaveTheWriterItsBlock | journal.go:208-261 | no other grant's step moves a live writer's tracked position or writes into its block |
| Recovery.ScanCommandApplication | inbox_recovery.go:416-549 | over any stream at all the scan answers exactly when some record sits at the captured tip with nothing past it or undecodable before it; over a journal's own stream it answers that journal's correlation |
| Recovery.ApplicationScan.Absorb | inbox_recovery.go:462-525 | one record folded in keeps "everything before it is accounted for, save a matched prefix awaiting the next record" |
| Recovery.ApplicationScan.Observe | inbox_recovery.go:580-589 | a finding replaces one of no higher precedence, effect fields with it |
| Recovery.ApplicationScan.Finish | inbox_recovery.go:526-549 | a prefix at the tip is unresolved |
| Recovery.ScanMeaning | inbox_recovery.go:222-235 | the scan reports the highest-precedence finding, the latest among equals; absence exactly when no prefix names the command; an effect exactly when committed; the exact fence maximum |
| Recovery.LeaderIsUnique | inbox_recovery.go:580-589 | only one prefix can be the reported one |
| Recovery.ScanDecidesExactly | inbox_recovery.go:462-589 | what the scan says, off the journal's bytes: conflicted exactly when some prefix names the command under another identity or kind; else committed exactly when an effect comes right after the command's own unstacked prefix, and the last such effect is the one named; no effect exactly when every prefix naming it ran into a fence of a strictly higher grant |
| Recovery.ScanAnswers | inbox_recovery.go:326-346 | an epoch is fenced exactly when a higher fence is in the journal; an effect is named exactly when it is the last there is and no prefix conflicts |
| Recovery.ScanUnderExtension | inbox_recovery.go:243-268 | as the journal grows a conflict stays, a commitment stays or becomes a conflict, a fenced epoch stays fenced |
| Recovery.NoEffectIsDurable | inbox_recovery.go:336-338 | a scan that proves no effect found every naming prefix already answered by a higher fence, for good |
| Recovery.FindingIsFinal | inbox_recovery.go:554-563 | a prefix whose next record is durable never changes its finding |
| Inbox.DecidedExactlyWhenAllowed | inbox_claim.go:271-552 | a transition is decided if and only if it names the current revision and is allowed: a live claim is displaced only by a higher epoch, only its holder applies or rejects under it, no claim starts past the deadline, a higher epoch completes only the effect the journal names, no rejection goes over a possible effect; and what it stores is valid and what was asked |
| Inbox.RefusedExactlyWhen | inbox_claim.go:271-552 | each refusal is given exactly when its own rule is the one met: a stale revision, a settled command, the wrong state, a superseded epoch, a passed deadline, a claim held or lost, no evidence |
| Inbox.DueByDeadline | inbox.go:452-461 | an unsettled command is due no later than its deadline, is shown to a clock reader once its deadline passes or its claim lapses and not a millisecond before, and a settled one nowhere |
| InboxStore.CommandStore.AdmitCommand | inbox.go:270-346 | a duplicate is answered with the winner's row exactly when it differs in nothing but names and instants, other content is refused, a tombstone is reported, a bad record refused; only a new command writes |
| InboxStore.CommandStore.ClaimCommand | inbox_claim.go:271-303 | succeeds exactly when the request is good, meets its row and is allowed, and leaves exactly the claimed record, due by its own bytes |
| InboxStore.CommandStore.BeginApplyingCommand | inbox_claim.go:316-345 | succeeds exactly for the live claim's own epoch on a claimed command, and leaves exactly the applying record |
| InboxStore.CommandStore.CompleteCommand | inbox_claim.go:378-423 | over any journal succeeds exactly when the command is applying and the epoch is the claim's own, or is higher and the effect named is the journal's last; above the claim's epoch nothing is written on a journal that cannot be read |
| InboxStore.CommandStore.RejectCommand | inbox_claim.go:497-552 | over any journal succeeds exactly when the rejecter may, every prefix of the command there ran into a higher fence, and a lapsed application is itself fenced; on a journal that cannot be read nothing is written, and a stored rejection rests on a scan that answered |
| InboxStore.CommandStore.AuthorizeRejection | inbox_claim.go:516-541 | let past if and only if: under a live claim, its holder; over a lapsed application, a strictly higher epoch; otherwise whoever names no epoch below the record's; and a superseded epoch is told so exactly when it is one |
| InboxStore.CarriedExactlyWhen | inbox_claim.go:271-552 | a transition is stored exactly when its request is good, its row is live at the revision named, it is allowed, and the scan answered where it rests on one; what it leaves is the record asked for; a rejection only on a scan that proved no effect |
| InboxStore.RefusalsAreToldApart | inbox_claim.go:271-552 | bad request, no row, tombstone, a scan that failed where nothing but the journal was left to refuse it, then the record's own refusal |
| InboxStore.RejectsExactlyWhen | inbox_claim.go:497-552 | a rejection succeeds exactly when the journal's every prefix of the command ran into a higher fence and the rejecter may |
| InboxStore.CompletesExactlyWhen | inbox_claim.go:378-423 | a completion succeeds exactly when its effect is the journal's last, or its epoch the claim's own |
| InboxStore.TransitionKeepsRows | inbox_claim.go:834-855 | a transition moves one row along one edge, files it by its own bytes, and keeps identity, order and admission |
| InboxStore.RetryIsAnsweredByTheWinner | inbox.go:304-346 | any later retry that differs from the first in nothing but its runtime identity and instants is answered with the first winner's runtime identity and order; other content is refused |
| InboxStore.CallsMoveRowsOn | inbox_claim.go:834-855 | over any sequence of admissions and transitions every row stays filed by its own bytes and only moves on |
| InboxStore.RetryAfterAnyCalls | inbox.go:304-346 | from a command's admission on, after any sequence of calls, its every retry is answered by the first winner |
| RecoveryProtocol.EveryRunKeepsInv | inbox_claim.go:271-552 | the whole two-store invariant over every interleaving of Hosts, successors and reconcilers, reads, scans and writes apart |
| RecoveryProtocol.RejectedNeverHasAnEffect | inbox_claim.go:497-552 | in every run, a command rejected at any moment has no effect in the journal at any moment, earlier or later |
| RecoveryProtocol.AppliedKeepsItsEffect | inbox_claim.go:378-423 | in every run, an applied command's named effect is in the journal from then on, and the record is final |
| RecoveryProtocol.CompletionNamesEffect | inbox_claim.go:399-417 | a higher epoch's completion names an effect its own scan found; only the same-epoch one rests on trust |
| RecoveryProtocol.SettlementsExclude | inbox_claim.go:776-798 | no command is applied at one moment of a run and rejected at another |
| RecoveryProtocol.RetryMeetsTheFirstWinner | inbox.go:372-376 | over any run everything admission fixed is the admitted one and neither status ever regresses; the public is told applied, rejected or accepted exactly when the record is applied, rejected or pending |
| RecoveryProtocol.ScanSawEveryPrefix | inbox_recovery.go:101-145 | every prefix there will ever be for a command about to be rejected was already in front of the rejection's scan |
| RecoveryProtocol.RecoveryIsConclusive | inbox_recovery.go:172-176 | once any higher grant's fence is in the journal, a begun command scans absent, abandoned or committed, never in doubt |
| RecoveryProtocol.ExactlyOneSettlementIsOpen | inbox_claim.go:528-549 | after its claim lapses and a higher grant has fenced, exactly one settlement is open: completion naming the effect that is there, or rejection when there is none |
| EnvelopeCodec.EncodeEnvelope | envelope.go:162-224 | the frame of a valid envelope that fits, or the first refusal |
| EnvelopeCodec.DecodeEnvelope | envelope.go:242-324 | the strict decoder, refusal by refusal |
| EnvelopeCodec.OneFieldRead | envelope.go:279-310 | a field taken off a frame spells, re-encoded, the very bytes consumed; its tag is above every one before it, and no other field changes |
| EnvelopeCodec.NextFieldIsTaken | envelope.go:279-310 | where a valid envelope's next field begins, that field is taken, whole, and nothing else is read |
| EnvelopeCodec.CodecIsABijection | envelope.go:162-324 | an envelope encodes to a frame if and only if that frame decodes to that envelope |
| EnvelopeCodec.EncodableExactlyWhen | envelope.go:200-210 | an envelope has a frame exactly when it is a good record and fits the bound |
| EnvelopeCodec.ValidExactlyWhen | envelope.go:491-641 | the validator accepts exactly five kinds of record, each with its own members and every other at zero |
| EnvelopeCodec.FrameIsSpelt | envelope.go:162-240 | a frame is the magic, version 1, the kind, the field count, the byte count, and each member under its own tag in order |
| EnvelopeCodec.FieldsAreInTagOrder | envelope.go:167-198 | every kind lists its fields in strictly ascending tag order |
| EnvelopeCodec.ReferenceRoundTrip | envelope.go:653-691 | a valid body reference decodes back |
| EnvelopeCodec.ReferenceIsCanonical | envelope.go:666-691 | an accepted body reference re-encodes to the same bytes |
| Cursors.AcceptedExactlyWhenIssued | cursor.go:65-100 | a cursor is accepted exactly when it is the one spelling issued for this kind, version, scope and payload |
| Cursors.CursorNamesOnePlace | cursor.go:44-54 | no cursor serves two kinds, scopes or positions |
| Cursors.DecodesExactlyTheLooseSpellings | cursor.go:87-93 | the library decodes to one value exactly these spellings: line breaks anywhere, and any bits in the slack of a short final group |
| Cursors.IssuedSpellingIsNotTheOnlyOne | cursor.go:87-93 | every value has a spelling nobody issued, which is why the exact one is demanded |
| JournalReader.JournalScan.WalkJournal | journal_reader.go:369-450 | over any stream a page either reached the captured tip or says where it stopped, and two or more items fit the byte budget; over a journal's own stream it is that journal's page |
| JournalReader.PageMeaning | journal_reader.go:369-457 | a page is exactly the selected records of the stretch it covers, passes over none it could not read, is inside every bound, stops short only where a bound says so, resumes right after itself, and always advances |
| JournalReader.PageFailsOnDamage | journal_reader.go:394-457 | a page fails only at the first damaged record of its stretch, met before the page was full, with that record's error |
| JournalReader.AppendsAreInvisible | journal_reader.go:305-347 | appends after the captured tip change no page |
| JournalReader.JournalCursorAcceptedExactlyWhen | journal_reader.go:522-561 | a journal cursor is accepted exactly when issued for that kind, session and position, inside a snapshot no wider than the live stream |
| JournalReader.CursorsKeepToTheirProjection | journal_reader.go:475-480 | a privileged cursor is never accepted by a public read, nor any cursor under another session's scope |
| JournalReader.PlanIsInsideTheSnapshot | journal_reader.go:266-347 | a planned walk starts at a real sequence, where the request said to, with the bounds asked for, and never looks past its snapshot |
| JournalReader.PlanIsAsAsked | journal_reader.go:266-347 | a plan starts where the request says: at its cursor's place, at the tail, or at the sequence asked for, under the tip and bounds asked for; refused as invalid or as a bad cursor exactly when it is one |
| JournalReader.IssuedCursorsAreAccepted | journal_reader.go:459-561 | every issued cursor is accepted back later, under any page bounds, and resumes exactly there |
| JournalReader.FollowedIsTheSnapshot | journal_reader.go:266-469 | following cursors to the end, with any appends between pages and any bounds, yields each selected record of the first snapshot from where the first request said to start, once and in order, within the snapshot's length, and never fails on a readable one |
| Dispositions.DecidedExactlyWhenAllowed | disposition_settlement.go:414-651 | each of the four requests writes, or leaves the record alone, exactly when a rule read off the record says so: claims, attempts, rejections, and settlements whose evidence is about the attempt by an author it allows |
| Dispositions.RefusedExactlyWhen | disposition_claim.go:261-432 | and is refused, with that refusal, exactly when its own rule is the one met |
| Dispositions.OutcomeExactlyWhen | disposition_settlement.go:596-651 | evidence settles an attempt exactly when it is about that attempt: a kind there is, and by the attempt's own epoch, or for a closure a later one whose fence it follows |
| Dispositions.WritesAreValidExactlyWhen | disposition_inbox.go:662-850 | every written record is accepted by the record's own validator, except a settlement read at an instant no record can carry; one attempt ever, the mark only rises, only a settlement writes an outcome |
| Dispositions.UnrankableSettlementsAreRefused | disposition_settlement.go:639-651 | the exception: any settlement its evidence would carry, read at such an instant, decides a write the validator refuses |
| Dispositions.AnUnrankableSettlement | disposition_settlement.go:639-651 | and there is one, a second past the last rankable instant |
| Dispositions.DueAtDeadline | disposition_inbox.go:368-373 | an unsettled command is shown once its deadline passes and not a millisecond before, whatever its claim; a settled one never |
| Dispositions.EvidenceMeaning | disposition_evidence.go:98-163 | a search returns evidence exactly when one disposition, and only one, names the attempt, agrees on all three identities, and carries its nearest preceding fence's epoch |
| Dispositions.SettlersAgree | disposition_evidence.go:84-164 | two searches at different tips that both find evidence find the same |
| DispositionEvidence.ExaminePage | disposition_evidence.go:107-152 | one page folded into the search, record by record, the fence carried on |
| DispositionEvidence.ReadDispositionEvidence | disposition_evidence.go:84-164 | the page loop is the search of everything its pages yield, and fails when they do |
| DispositionEvidence.PagedSearchIsTheSnapshotSearch | disposition_evidence.go:95-163 | paging over a growing journal answers what an unpaged search of the first snapshot would |
| DispositionEvidence.SettlementIsSound | disposition_settlement.go:596-651 | verified evidence is the one disposition in the captured journal naming the attempt; its author is the attempt's own epoch, or for a recovery closure a later one |
| DispositionEvidence.EvidenceExactlyWhen | disposition_evidence.go:84-164 | a search brings evidence about the attempt exactly when the journal attests it: one disposition of it, agreeing and by an author it allows |
| DispositionEvidence.SettlesExactlyWhen | disposition_settlement.go:493-651 | an applying command is settled exactly when its journal attests its attempt, refused and not applied as rejected, applied and no-op as applied; otherwise nothing is written |
| DispositionStores.DispositionStore.AdmitDispositionCommand | disposition_inbox.go:283-309 | a duplicate that differs in nothing but the two names it goes by gets the winner's row; anything else is refused |
| DispositionStores.DispositionStore.ClaimDispositionCommand | disposition_claim.go:261-327 | writes exactly when the request is good, meets its row and may claim; the same live claim is answered without a write; refusals in order |
| DispositionStores.DispositionStore.BeginDispositionAttempt | disposition_settlement.go:414-454 | writes the attempt exactly for the live claim's own residency on a claimed command |
| DispositionStores.DispositionStore.SettleDispositionCommand | disposition_settlement.go:493-572 | writes exactly when an applying command's evidence is about its attempt, the residency is not behind, and the instant can be held; a settled command is answered as it stands |
| DispositionStores.DispositionStore.RejectDispositionCommand | disposition_claim.go:382-434 | writes exactly when there is no attempt and the residency may; a rejected one is answered without a write, an attempted one never rejected |
| DispositionStores.TransitionKeepsRows | disposition_settlement.go:764-780 | a call moves at most its own row, along one edge, filed by its own bytes |
| DispositionStores.WritesExactlyWhen | disposition_settlement.go:708-790 | a call writes exactly when its request is good, its row is live at the revision named and the record changes, a settlement only at an instant a record can hold; and answers without a write exactly when the record is to be left alone |
| DispositionStores.RefusalsAreToldApart | disposition_settlement.go:708-790 | bad request, no row, tombstone, stale revision, an instant no record can hold, then the record's own refusal |
| DispositionStores.SettlingAgainChangesNothing | disposition_settlement.go:514-520 | a settled command answers its own record, whatever evidence a later settler brings |
| DispositionProtocol.OneAttemptForGood | disposition_claim.go:382-434 | in every run at most one attempt is written and never changed, a command rejected before dispatch never gains one, a settled record is final |
| DispositionProtocol.ResidenciesAgree | disposition_inbox.go:662-771 | in every run the mark never falls, was issued, agrees with the attempt's, and bounds whoever settled |
| DispositionProtocol.OutcomesAreInTheJournal | disposition_settlement.go:493-572 | in every run an outcome names a disposition that is in the journal for good, agreeing with the record and with its nearest fence |
| DispositionProtocol.OneWinnerPerRevision | disposition_settlement.go:764-780 | two writes decided at one revision never both land |
| Gates.RepeatsPassExactlyWhenSeparated | catalog.go:1272-1296 | of valid gates the canonical form accepts a name twice if and only if, between every two places that hold it, a gate of another name sorts strictly between |
| Gates.ANameCanPassTwice | catalog.go:1272-1296 | so one name passes twice, whatever Core's rules, wherever three valid gates open in turn and only the middle one has another name |
| Gates.SortedMeaning | catalog.go:1283-1290 | the stored order is ordered by opening event and then name, and holds exactly the gates it was given |
| Gates.DueOnceTheDeadlinePasses | gates.go:1108-1118 | a passed deadline is in the due view and none is a millisecond early |
| Gates.AppendStaysGood | gates.go:455-505 | appending under the open's own checks keeps the projection bounded, each name and event once, ascending |
| Gates.PlanExactlyWhen | gates.go:385-492 | what an open decides: a superseded grant is refused first; the very gate that is there replays; a fresh name and event append while there is room; otherwise the first clash in projection order is refused as what it is |
| Gates.MeetExactlyWhen | gates.go:1002-1070 | an intent row met by an open: a tombstone or another gate's row is refused, one more write is left exactly when it is parked or recorded earlier, and the instant never falls |
| Gates.WithoutGate | gates.go:1134-1145 | the projection less one gate, and whether it was there |
| Gates.WithoutMeaning | gates.go:1134-1145 | exactly the gates of other names remain |
| Gates.PageTipMeaning | gates.go:646-655 | every open gate's event is at or below the page's tip, which is one of those events or zero, and the last one's in a good projection |
| Gates.GatePageTip | gates.go:646-655 | the tip bounds every open gate and is the last one's event, zero for none |
| Gates.GateIntents.CommitGateIntent | gates.go:1002-1070 | success leaves a live row for exactly this gate recorded at or after this attempt's reading and never earlier than before; a refusal changes nothing |
| Gates.GateIntents.RetireGateIntent | gates.go:1076-1094 | idempotent, and leaves the bytes behind the tombstone |
| Gates.GateStore.OpenGate | gates.go:385-506 | wherever it is cut every projected gate keeps its deadline; uncut it succeeds exactly when the grant is not superseded, the gate is there already or there is room and nothing else has its name or event, and its intent is free; then the gate is projected and the mark at this grant |
| Gates.GateStore.ResolveGate | gates.go:516-564 | wherever it is cut every projected gate keeps its deadline; success clears the gate and retires its intent, and a repeat finishes an interrupted one |
| GateProtocol.StepLosesExactlyWhen | gates.go:385-564 | a step from a state where every projected gate has its deadline keeps that if and only if it neither buries a live intent under its projected gate nor projects a gate over a buried intent |
| GateProtocol.CoveredThroughoutExactlyWhen | gates.go:207-220 | over any run, whatever its callers do, every projected gate has its deadline at every moment if and only if no step is one of those two |
| GateProtocol.NoGateWithoutADeadline | gates.go:385-564 | in every interleaving with crashes between any two provider writes, every projected gate has its own live intent due at its deadline, provided no resolve buries a gate's intent once an open of it has met it |
| GateProtocol.CallsApartAreQuiet | gates.go:198-206 | resolves that never overlap an open of the same gate meet that obligation |
| GateProtocol.EveryProjectionIsPublishable | gates.go:448-505 | in every run the projection holds at most sixteen gates, each name and each event once, ascending by event, and its last event is the page's tip |
| GateProtocol.AnOpenAloneSucceeds | gates.go:385-506 | from any reachable state an open that nothing overlaps can be run to its gate projected with its own live deadline, and nothing else changed, wherever it may open |
| GateProtocol.AResolveAloneSucceeds | gates.go:516-564 | and a resolve that nothing overlaps leaves the gate gone, its intent buried and the mark at its grant |
| GateFence.BuriedUnderAnOpen | gates.go:207-216 | an open past its first look at an intent that is then buried under it is refused if it has yet to re-stamp the row; otherwise it changes no gate if it replays, projects its gate without a deadline if the record it read is still the record, and is refused if that has moved |
| GateFence.OverlapLosesTheDeadline | gates.go:207-220 | the first, reached from the empty session |
| GateFence.WrittenThenBuriedIsBarred | gates.go:207-218 | the second, over any run: a resolve that raised the mark or cleared the gate, and buries the intent before an open of it reads again, leaves the gate unpublishable for good |
| GateFence.BarredForGood | gates.go:213-218 | a barred gate is unprojected in every continuation, and every retry is refused at the tombstoned intent |
| GateFence.RaisedAndBuriedBars | gates.go:207-218 | the second, reached from the empty session |
| GateFence.FenceClosesTheWindowExactlyWhen | gates.go:216-236 | once the mark has passed a predecessor's grant, no resolve of the gate under such a grant buries its intent in any continuation if and only if the intent is a tombstone already, or each such resolve in flight has yet to read, saw the gate projected, holds a grant above the mark it read, or looked at the row before it was last re-stamped |
| GateFence.BehindTheFenceOnlySuccessorsBury | gates.go:216-236 | behind a fence that does close it, only grants at or above the mark bury the gate's intent |
| GateFence.AFenceDoesNotCloseTheWindow | gates.go:223-236 | a fencing write completed under the successor's own grant before its open starts does not prevent the loss |
| GateProtocol.MarksAndInstantsOnlyRise | gates.go:1002-1070 | over every run the mark and each recorded instant only rise, an intent never changes gate, a tombstone stays |
| GateProtocol.SuccessRaisesTheMark | gates.go:634-641 | a gate write that succeeds leaves the mark at or above its own grant, and its intent recorded at or after its own reading |
| HostTargets.HostDirectory.PublishHostTarget | host_targets.go:651-697 | succeeds exactly when the target is good and the row is absent, or is the one read and of no higher generation; files exactly this target by its own rank and due, and otherwise changes nothing |
| HostTargets.HostDirectory.DrainHostTarget | host_targets.go:1303-1343 | succeeds exactly on a standing row of no higher generation that is still the one read, or was withdrawn at this generation already; leaves the Host withdrawn at this generation, once |
| HostTargets.SweepsSpareLiveHosts | host_targets.go:1631-1685 | in every run, no sweep takes down a row whose stored expiry at the very write is after its clock reading |
| HostTargets.GenerationsOnlyRise | host_targets.go:716-722 | in every run the generation never falls, and rank and due are exactly the stored record's |
| HostTargets.FiledWhereTheSweepLooks | host_targets.go:477-531 | every expired row is in the due view at the sweep's bound and none a millisecond early, a withdrawn one is in neither view, and exactly an accepting one is ranked, by its capacity |
| HostTargets.WritesFollowEdges | host_targets.go:477-531 | every write is a valid record of the same Host along one edge |
| HostTargets.DecidedExactlyWhen | host_targets.go:651-722 | what each call decides on the row it read: a heartbeat creates, or replaces one of no higher generation; a drain withdraws, or finds it done; a sweep withdraws exactly what has expired |
| HostTargetSweep.ReconcileHostTargetRow | host_targets.go:1631-1685 | each of the five outcomes exactly when it should be, withdrawn exactly for a standing expired row that is still the one shown, and nothing changed but a lapsed row taken down |
| HostTargetSweep.ReconcileHostTargets | host_targets.go:1472-1548 | every scanned row is under one of five outcomes, save the one that ended the sweep; it scans exactly as many rows as its pages hold or the view has left; a sweep short of the end says where it stopped |
| HostTargetSweep.SweepUntilExhausted | host_targets.go:1472-1548 | resuming until exhausted, each call on its own clock reading, visits every row due at the bound once and in order, however many are unreadable, and takes down only rows that lapsed at one of those readings; with a truthful provider every row still standing and expired by then is taken down |
| Keyspace.FramesAreInjective | keyspace.go:364-395 | length-prefixed frames are injective in their values and in how many there are |
| Keyspace.DigestFrame | keyspace.go:364-377 | the digest's input, as written by the loop |
| Keyspace.DigestFramesAreInjective | keyspace.go:364-377 | no domain can be spelled as another's values |
| Keyspace.EncodeWitness | keyspace.go:383-395 | the witness bytes, as written by the loop |
| Keyspace.WitnessesAreInjective | keyspace.go:383-395 | a witness names one kind and one list of identities |
| Keyspace.BindWitness | keyspace.go:427-455 | against any racing creation success means the stored bytes are these; nothing is ever overwritten |
| Keyspace.BindSessionScope | keyspace.go:326-343 | a bound session verifies; undisturbed, binding succeeds exactly when each of its two witness keys is free or holds that witness already |
| Keyspace.ScopeExactlyWhen | keyspace.go:206-300 | a session has a scope exactly when its identities are valid and, under the legacy layout, are the one tenant's own canonical session |
| Keyspace.NamesCollideOnlyWithTheDigest | keyspace.go:253-300 | what is digested for a session names it and no other and is never what is digested for a tenant, and a token spells its whole digest; so two identities share a session name only where the digest itself collides |
| Keyspace.ScopeWitnesses | keyspace.go:253-300 | a scope's two witnesses are its own identities', under keys no digest can make one |
| Keyspace.Initialize | keyspace.go:93-116 | a successful open means the stored marker is this configuration's; undisturbed, it succeeds exactly when there is none yet or it is |
| Keyspace.OpensAgree | keyspace.go:93-203 | any two successful opens of one backend agree on layout, tenant and shard count |
| Keyspace.NamespacesAreNeverShared | keyspace.go:253-316 | for any digest at all, two identities deriving one session namespace never both verify, at any two moments |
| Keyspace.TheFirstOwnerIsTheOnlyOne | keyspace.go:302-316 | over any history of racing creations whoever verified first keeps the namespace, and no other identity verifies |
| Consumption.CursorStore.SaveDispositionCommandCursor | consumption.go:578-776 | success stores exactly the offered cursor at or past the replaced one, even against an overtaken read; every refusal leaves the row |
| Consumption.Fences | consumption.go:648-676 | a save passes exactly when neither its epoch nor its position is behind, and a refusal names the stored ones |
| Consumption.AcceptPage | consumption.go:280-333 | a provider's page is believed exactly when it is in bound, ascending above the position, readable, and continues from its own end |
| Consumption.PositionsOnlyRise | consumption.go:648-676 | under any concurrent savers the stored epoch and position never decrease |
| Consumption.NothingIsSkipped | consumption.go:474-634 | consumers that save only what they were paged from a loaded position lose no command at or below it |
| Consumption.LateRowsAreLostExactlyWhen | inbox.go:199-201 | a row that appears at or below the stored position is handed to no consumer in any continuation exactly when no consumer is still behind it, so the index's ordering promise is needed |
| ObjectVerifiers.ReadOnceMeaning | objects.go:630-714 | a read passes on exactly the bytes it counts, the end only for the promised length and digest, and an outcome once reached is every later read's |
| ObjectVerifiers.ReadEndsExactlyWhen | objects.go:630-714 | a streaming read reaches the verified end if and only if the source ends bare, uncancelled and in range on exactly the promised bytes; each failure, and going on, has its own condition |
| ObjectVerifiers.ExactVerifier.Read | objects.go:630-678 | for any source reply, each outcome by its own condition; at most the promised bytes pass, and the end is reported exactly for the promised length and digest |
| ObjectVerifiers.ExactVerifier.FinishRead | objects.go:685-714 | cancellation, then a read failure, then the end, then no progress; the verified end exactly on a bare end of the promised bytes |
| ObjectVerifiers.ReadAll | objects.go:570-714 | reading to the end delivers the promised bytes or ends in a latched failure; a source that brings exactly the promised bytes, undisturbed, is read to the verified end |
| ObjectReaders.OnceEach | objects.go:759-880 | for every schedule of reads, closes and cancellations, one thread at most is in the verifier, and provider close and release happen once each, release after the result is final |
| ObjectReaders.ResultIsFinal | objects.go:847-880 | a published result never changes |
| ObjectReaders.CloseNilOnlyIfVerified | objects.go:570-880 | over every schedule and any source behaviour, Close returns nil exactly when the cause is the verified end and the provider's own close was clean; and then the bytes handed to Reads, in order, are of exactly the promised length and digest |
| ObjectReaders.FaithfulStreamsAreVerified | objects.go:570-880 | over any source that brings exactly the promised bytes and closes cleanly there is a schedule in which Close returns nil with those bytes handed to Reads |
| ObjectReaders.EverythingIsReported | objects.go:759-880 | in every schedule the terminator gives the cause, the verifier's outcome is the cause or is joined to it, and the provider's own answer is reported as it was |
| ObjectReaders.ReadsAreAnsweredTheTerminal | objects.go:759-804 | a read that reports an error reports the one terminal result; one that reports none went through the verifier |
| ObjectReaders.NoDeadlock | objects.go:759-892 | while any call has not returned, some thread can move |
| ObjectReaders.SchedulesEndAnswered | objects.go:759-892 | a schedule takes at most seven steps to a call, and one that can go on only by another call arriving has answered every call |
| ObjectReaders.EveryStepRetires | objects.go:759-892 | every step but an arrival brings its own thread nearer its return and moves no other |
| ObjectMetadataIndex.EncodeObjectMetadataRecord | object_metadata.go:115-124 | the record's bytes, as written by the loop |
| ObjectMetadataIndex.DecodeObjectMetadataRecord | object_metadata.go:126-160 | the strict decoder, its field loop shrinking the rest |
| ObjectMetadataIndex.AcceptedExactlyWhenCanonical | object_metadata.go:115-160 | a record is accepted exactly when it is the canonical bytes of that metadata under the very identities asked for |
| ObjectMetadataIndex.PersistObjectMetadata | object_metadata.go:83-101 | success means the canonical record is stored, whoever wrote it, and nothing is overwritten |

## Where code and comments differ

The model follows the code.

- `cursor.go:73-78` says a decode that passes the length gate cannot be out of range because
  `DecodedLen` is exact. The library skips line breaks, so it is not; the exact-spelling check
  that follows is what makes the slices safe, and is what `Cursors.DecodeCursor` relies on.
- `gates.go:1112` says milliseconds truncate toward the epoch. Before 1970 they round to the
  past; the due view is early by less than a millisecond either way.
- `host_targets.go:1416-1419` says a continuation is present exactly when a sweep was not exhausted.
  A listing that fails on a walk's first page, and a row that ends the sweep, return neither.
- `gates.go:223-236` says a fencing write before the first open closes the window for that open. It
  stops a predecessor's resolve that has not read, that saw the gate projected, or whose grant is
  above the mark it read. One that read the gate unprojected under a mark equal to its own grant
  has nothing to write, meets neither the fence nor the revision, and buries the intent all the
  same: `GateFence.AFenceDoesNotCloseTheWindow` is the run.
- `gates.go:604-606` says the catalog's canonical form establishes that gate names are unique. It
  compares neighbours only; uniqueness is proved of what opens and resolves can reach.

## Left out

- Provider I/O, contexts, admission and shutdown bookkeeping, error wrapping and error field names: a refusal is its code.
- JSON record encodings, UTF-8 checks by reflection, UTC normalization and media types: records are compared as values.
- Uploading an over-threshold journal body: `JournalWriters.Offered` takes whatever the upload leaves in the slot.
- Deleting or sweeping command records, so a tombstone is met but never made there.
- Parking and retiring gate intents by a sweep, listing due gates and wholesale projection by a Host: only opens and resolves write here.
- Legacy catalog records' gate writes, their journal-tip check and their caller-named epochs: the gate machine is one disposition session.
- Catalog checks before admitting a disposition command, public-create reservations and payload objects: descriptors are compared whole by digest and size.
- How a residency or a lease is acquired: a grant is an issued number.
- Shard hashing, placement, registry, pointers, terminations, session listings and the ranked host page.
- The object identity grammar and blob keys: whether metadata describes an object of a kind is a parameter.
- `CompleteCommand` at the claim's own epoch is taken at its word, as the code takes it; the obligation is stated above.
- Due pages of the host directory are one fixed view per bound; rows entering it during a walk are not modelled.
- CommandStore: each call is atomic there; what runs between its read and its write is `RecoveryProtocol`'s subject.
- InboxDue: rounding to milliseconds is floor division, with no bound on the instant beyond what the record validator demands.
- NoDeadlock: a provider read is assumed to return. The code leaves that to the provider, whose Close must end a read blocked inside it (`objects.go:841-846`).
- SchedulesEndAnswered: rests on the same, that a provider read returns.
- GateStore: one caller at a time, with crashes; concurrent callers are `GateProtocol`'s subject. There every gate has already passed validation.
