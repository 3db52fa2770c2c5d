/** One disposition command's record: at most one dispatch attempt, settled only by
    what the journal says became of it. Residency epochs guard the claim and the
    attempt; journal epochs guard the evidence. */
module Dispositions {
  import opened Wrappers
  import opened Bytes
  import opened Clock
  import opened Envelopes
  import opened Storage
  import I = Inbox
  import J = JournalOwnership

  type State = I.InboxState
  type Error = I.InboxError

  datatype Claim = Claim(residencyEpoch: uint64, expiresAt: Instant)

  datatype Attempt = Attempt(attemptID: Text, journalEpoch: uint64, residencyEpoch: uint64, startedAt: Instant)

  datatype Outcome = Outcome(
    kind: Text,
    attemptID: Text,
    attemptJournalEpoch: uint64,
    authorJournalEpoch: uint64,
    dispositionSeq: nat,
    authorFenceSeq: nat,
    eventID: Text,
    eventSeq: nat,
    settlingResidencyEpoch: uint64,
    settledAt: Instant)

  /** What admission fixed. The attribution members are compared whole. */
  datatype Descriptor = Descriptor(
    publicCreate: bool,
    commandID: Text,
    runtimeCommandID: Text,
    kind: Text,
    payloadDigest: Text,
    payloadSize: uint64,
    principal: Option<Text>,
    metadata: map<Text, Text>)

  datatype Record = Record(
    descriptor: Descriptor,
    acceptedAt: Instant,
    applyDeadline: Instant,
    state: State,
    claim: Option<Claim>,
    attempt: Option<Attempt>,
    outcome: Option<Outcome>)

  // ---- the record's own validator ---------------------------------------------------

  function TerminalState(kind: Text): State {
    if kind == RefusedKind() || kind == NotAppliedKind() then I.Rejected else I.Applied
  }

  predicate ValidClaim(c: Claim) { c.residencyEpoch != 0 && Rankable(c.expiresAt) }

  predicate ValidAttempt(validOpaque: Text -> bool, a: Attempt) {
    validOpaque(a.attemptID) && a.journalEpoch != 0 && a.residencyEpoch != 0 && Rankable(a.startedAt)
  }

  predicate ValidOutcome(o: Outcome, attempt: Option<Attempt>, state: State) {
    && ValidDispositionKind(o.kind) && TerminalState(o.kind) == state
    && attempt.Some? && o.attemptID == attempt.value.attemptID && o.attemptJournalEpoch == attempt.value.journalEpoch
    && o.authorJournalEpoch != 0 && o.dispositionSeq != 0 && o.settlingResidencyEpoch != 0
    && Rankable(o.settledAt)
    && (if o.kind == NotAppliedKind()
        then o.authorJournalEpoch > o.attemptJournalEpoch && o.authorFenceSeq != 0 && o.authorFenceSeq < o.dispositionSeq
        else o.authorJournalEpoch == o.attemptJournalEpoch && o.authorFenceSeq == 0)
    && o.eventID == [] && o.eventSeq == 0
  }

  predicate ValidState(validOpaque: Text -> bool, r: Record) {
    && (r.claim.Some? ==> ValidClaim(r.claim.value))
    && (r.attempt.Some? ==> ValidAttempt(validOpaque, r.attempt.value))
    && (r.outcome.Some? ==> ValidOutcome(r.outcome.value, r.attempt, r.state))
    && (r.claim.Some? && r.attempt.Some? ==> r.attempt.value.residencyEpoch == r.claim.value.residencyEpoch)
    && match r.state
       case Pending => r.claim.None? && r.attempt.None? && r.outcome.None?
       case Claimed => r.claim.Some? && r.attempt.None? && r.outcome.None?
       case Applying => r.claim.Some? && r.attempt.Some? && r.outcome.None?
       case Applied => r.attempt.Some? && r.claim.Some? && r.outcome.Some?
       case Rejected => if r.attempt.None? then r.outcome.None? else r.claim.Some? && r.outcome.Some?
  }

  function DispositionDue(r: Record): Due {
    if r.state.Terminal() then NotDue else DueAt(UnixMilli(r.applyDeadline))
  }

  /** An unsettled command is shown to whoever pages by the clock once its deadline
      has passed, and not a millisecond before; a settled one never. */
  lemma DueAtDeadline(r: Record, now: Instant)
    ensures r.state.Terminal() <==> DispositionDue(r) == NotDue
    ensures !r.state.Terminal() && r.applyDeadline <= now ==> DispositionDue(r).DueAt? && DispositionDue(r).unixMillis <= UnixMilli(now)
    ensures DispositionDue(r).DueAt? && DispositionDue(r).unixMillis <= UnixMilli(now) ==> r.applyDeadline - now < 1_000_000
  {
    FiledToTheMillisecond(r.applyDeadline, now);
  }

  predicate SameDispositionCommand(winner: Descriptor, d: Descriptor) {
    && winner.publicCreate == d.publicCreate && winner.kind == d.kind
    && winner.payloadDigest == d.payloadDigest && winner.payloadSize == d.payloadSize
    && winner.principal == d.principal && winner.metadata == d.metadata
  }

  predicate ClaimLive(r: Record, now: Instant) { r.claim.Some? && now < r.claim.value.expiresAt }

  /** The residency a record has been claimed under, zero when it never was. */
  function Mark(r: Record): uint64 { if r.claim.Some? then r.claim.value.residencyEpoch else 0 }

  function HighWater(mark: uint64, residency: uint64): Option<Error> {
    if residency < mark then Some(I.Superseded(mark)) else None
  }

  // ---- evidence ------------------------------------------------------------------------

  datatype Evidence = Evidence(
    attemptID: Text,
    kind: Text,
    attemptJournalEpoch: uint64,
    authorJournalEpoch: uint64,
    dispositionSeq: nat,
    authorFenceSeq: nat,
    eventID: Text,
    eventSeq: nat)

  /** What a settlement asks the journal. */
  datatype EvidenceRequest = EvidenceRequest(commandID: Text, runtime: Uuid16, kind: Text, attempt: Attempt)

  function VerifiedOutcome(attempt: Attempt, e: Evidence, residency: uint64, now: Instant): Result<Outcome, Error> {
    if !ValidDispositionKind(e.kind) then Err(I.NoEvidence)
    else if e.attemptID != attempt.attemptID then Err(I.NoEvidence)
    else if e.attemptJournalEpoch != attempt.journalEpoch then Err(I.NoEvidence)
    else if e.dispositionSeq == 0 then Err(I.NoEvidence)
    else if e.kind == NotAppliedKind() && e.authorJournalEpoch <= e.attemptJournalEpoch then Err(I.NoEvidence)
    else if e.kind == NotAppliedKind() && (e.authorFenceSeq == 0 || e.authorFenceSeq >= e.dispositionSeq) then Err(I.NoEvidence)
    else if e.kind != NotAppliedKind() && (e.authorJournalEpoch != e.attemptJournalEpoch || e.authorFenceSeq != 0) then Err(I.NoEvidence)
    else if e.eventID != [] || e.eventSeq != 0 then Err(I.NoEvidence)
    else Ok(Outcome(e.kind, e.attemptID, e.attemptJournalEpoch, e.authorJournalEpoch, e.dispositionSeq, e.authorFenceSeq,
                    e.eventID, e.eventSeq, residency, now))
  }

  // ---- the transitions -------------------------------------------------------------------

  datatype Request =
    | ClaimIt(expectedRevision: nat, residency: uint64, claimExpiresAt: Instant)
    | BeginAttempt(expectedRevision: nat, attempt: Attempt)
    | Settle(expectedRevision: nat, residency: uint64)
    | RejectIt(expectedRevision: nat, residency: uint64)

  predicate ValidRequest(validOpaque: Text -> bool, req: Request, now: Instant) {
    && req.expectedRevision != 0
    && match req
       case ClaimIt(_, residency, expires) => ValidClaim(Claim(residency, expires)) && BoundedExpiry(expires, now, I.MAX_COMMAND_CLAIM_TTL)
       case BeginAttempt(_, attempt) => ValidAttempt(validOpaque, attempt)
       case Settle(_, residency) => residency != 0
       case RejectIt(_, _) => true
  }

  /** What a transition decides: a record to write, or that nothing need be. */
  datatype Decision = Write(next: Record) | Unchanged

  function DecideClaim(r: Record, req: Request, now: Instant): Result<Decision, Error>
    requires req.ClaimIt?
  {
    var claim := Claim(req.residency, req.claimExpiresAt);
    if r.state.Terminal() then Err(I.AlreadyTerminal)
    else if r.attempt.Some? then Err(I.WrongState)
    else if HighWater(Mark(r), req.residency).Some? then Err(I.Superseded(Mark(r)))
    else if ClaimLive(r, now) && r.claim.value == claim then Ok(Unchanged)
    else if now >= r.applyDeadline then Err(I.PastDeadline)
    else if ClaimLive(r, now) && r.claim.value.residencyEpoch == req.residency then Err(I.ClaimHeld)
    else Ok(Write(r.(state := I.Claimed, claim := Some(claim))))
  }

  function DecideBegin(r: Record, req: Request, now: Instant): Result<Decision, Error>
    requires req.BeginAttempt?
  {
    if r.state.Terminal() then Err(I.AlreadyTerminal)
    else if r.state != I.Claimed || r.claim.None? then Err(I.WrongState)
    else if HighWater(Mark(r), req.attempt.residencyEpoch).Some? then Err(I.Superseded(Mark(r)))
    else if req.attempt.residencyEpoch != Mark(r) then Err(I.ClaimLost)
    else if now >= r.claim.value.expiresAt then Err(I.ClaimLost)
    else Ok(Write(r.(state := I.Applying, attempt := Some(req.attempt))))
  }

  /** Whether a settlement reads the journal at all. */
  predicate NeedsEvidence(r: Record, req: Request) {
    req.Settle? && r.state == I.Applying && r.attempt.Some? && r.claim.Some? && HighWater(Mark(r), req.residency).None?
  }

  function DecideSettle(r: Record, req: Request, now: Instant, evidence: Result<Evidence, Error>): Result<Decision, Error>
    requires req.Settle?
  {
    if r.state.Terminal() then Ok(Unchanged)
    else if r.state != I.Applying || r.attempt.None? || r.claim.None? then Err(I.WrongState)
    else if HighWater(Mark(r), req.residency).Some? then Err(I.Superseded(Mark(r)))
    else if evidence.Err? then Err(evidence.error)
    else
      var outcome := VerifiedOutcome(r.attempt.value, evidence.value, req.residency, now);
      if outcome.Err? then Err(outcome.error)
      else Ok(Write(r.(state := TerminalState(outcome.value.kind), outcome := Some(outcome.value))))
  }

  function DecideReject(r: Record, req: Request, now: Instant): Result<Decision, Error>
    requires req.RejectIt?
  {
    if r.state == I.Rejected && r.attempt.None? then Ok(Unchanged)
    else if r.state.Terminal() then Err(I.AlreadyTerminal)
    else if r.attempt.Some? then Err(I.WrongState)
    else if req.residency != 0 && HighWater(Mark(r), req.residency).Some? then Err(I.Superseded(Mark(r)))
    else if ClaimLive(r, now) && r.claim.value.residencyEpoch != req.residency then Err(I.ClaimHeld)
    else Ok(Write(r.(state := I.Rejected)))
  }

  function Decide(r: Record, req: Request, now: Instant, evidence: Result<Evidence, Error>): Result<Decision, Error> {
    match req
    case ClaimIt(_, _, _) => DecideClaim(r, req, now)
    case BeginAttempt(_, _) => DecideBegin(r, req, now)
    case Settle(_, _) => DecideSettle(r, req, now, evidence)
    case RejectIt(_, _) => DecideReject(r, req, now)
  }

  predicate Finished(r: Record) { r.state == I.Applied || r.state == I.Rejected }

  predicate Holding(r: Record, now: Instant) { r.claim.Some? && r.claim.value.expiresAt > now }

  /** One edge of the lifecycle: an attempt is written once and never changed, a
      settled record is final, and the residency mark only rises. A live claim is
      displaced only by a higher residency, and only its own residency may attempt
      or reject under it; a settlement writes what its evidence says. */
  ghost predicate Edge(r: Record, s: Record, req: Request, now: Instant, evidence: Result<Evidence, Error>) {
    && s.descriptor == r.descriptor && s.acceptedAt == r.acceptedAt && s.applyDeadline == r.applyDeadline
    && !Finished(r) && I.StatusRank(r.state) <= I.StatusRank(s.state) && Mark(r) <= Mark(s)
    && match req
       case ClaimIt(_, residency, expires) =>
         && s == r.(state := I.Claimed, claim := Some(Claim(residency, expires)))
         && r.attempt.None? && now < r.applyDeadline && (Holding(r, now) ==> Mark(r) < residency)
       case BeginAttempt(_, attempt) =>
         && s == r.(state := I.Applying, attempt := Some(attempt))
         && r.attempt.None? && Holding(r, now) && attempt.residencyEpoch == Mark(r)
       case Settle(_, residency) =>
         && r.attempt.Some? && r.outcome.None? && Mark(r) <= residency && evidence.Ok? && s.outcome.Some?
         && s == r.(state := s.state, outcome := s.outcome) && s.state == SettledAs(s.outcome.value.kind)
         && Reports(s.outcome.value, evidence.value, residency, now)
       case RejectIt(_, residency) =>
         && s == r.(state := I.Rejected) && r.attempt.None?
         && (Holding(r, now) ==> residency == Mark(r)) && (residency != 0 ==> Mark(r) <= residency)
  }

  /** Refused and not applied are rejections; applied and no-op are applications. */
  function SettledAs(kind: Text): State { if kind in {Ascii("refused"), Ascii("not_applied")} then I.Rejected else I.Applied }

  predicate Reports(o: Outcome, e: Evidence, residency: uint64, now: Instant) {
    && o.kind == e.kind && o.attemptID == e.attemptID && o.attemptJournalEpoch == e.attemptJournalEpoch
    && o.authorJournalEpoch == e.authorJournalEpoch && o.dispositionSeq == e.dispositionSeq
    && o.authorFenceSeq == e.authorFenceSeq && o.settlingResidencyEpoch == residency && o.settledAt == now
  }

  // ---- every answer, read off the record -------------------------------------------------

  /** A residency the record has already been claimed above. */
  predicate Behind(r: Record, residency: nat) { r.claim.Some? && residency < r.claim.value.residencyEpoch }

  /** Evidence that is about this attempt, of a kind there is, by an author who could have
      written it: the attempt's own epoch, or for a closure a later one, whose fence it
      follows. */
  predicate AboutAttempt(attempt: Attempt, e: Evidence) {
    && e.kind in {Ascii("applied"), Ascii("no_op"), Ascii("refused"), Ascii("not_applied")}
    && e.attemptID == attempt.attemptID && e.attemptJournalEpoch == attempt.journalEpoch
    && e.dispositionSeq >= 1 && e.eventID == [] && e.eventSeq == 0
    && if e.kind == Ascii("not_applied") then attempt.journalEpoch < e.authorJournalEpoch && 1 <= e.authorFenceSeq < e.dispositionSeq
       else e.authorJournalEpoch == attempt.journalEpoch && e.authorFenceSeq == 0
  }

  /** When a call writes the record. */
  predicate Changes(r: Record, req: Request, now: Instant, evidence: Result<Evidence, Error>) {
    && !Finished(r)
    && match req
       case ClaimIt(_, residency, _) =>
         && r.attempt.None? && !Behind(r, residency) && now < r.applyDeadline
         && (Holding(r, now) ==> r.claim.value.residencyEpoch < residency)
       case BeginAttempt(_, attempt) =>
         r.state == I.Claimed && Holding(r, now) && attempt.residencyEpoch == r.claim.value.residencyEpoch
       case Settle(_, residency) =>
         && r.state == I.Applying && r.attempt.Some? && r.claim.Some? && !Behind(r, residency)
         && evidence.Ok? && AboutAttempt(r.attempt.value, evidence.value)
       case RejectIt(_, residency) =>
         && r.attempt.None? && (residency == 0 || !Behind(r, residency))
         && (Holding(r, now) ==> residency == r.claim.value.residencyEpoch)
  }

  /** When it is answered with the record as it stands. */
  predicate LeavesAlone(r: Record, req: Request, now: Instant) {
    match req
    case ClaimIt(_, residency, expires) => !Finished(r) && r.attempt.None? && Holding(r, now) && r.claim.value == Claim(residency, expires)
    case BeginAttempt(_, _) => false
    case Settle(_, _) => Finished(r)
    case RejectIt(_, _) => r.state == I.Rejected && r.attempt.None?
  }

  /** What each refusal means, each by its own rule. */
  predicate RefusedFor(e: Error, r: Record, req: Request, now: Instant, evidence: Result<Evidence, Error>) {
    match req
    case ClaimIt(_, residency, expires) =>
      if Finished(r) then e == I.AlreadyTerminal
      else if r.attempt.Some? then e == I.WrongState
      else if Behind(r, residency) then e == I.Superseded(r.claim.value.residencyEpoch)
      else
        || (e == I.PastDeadline && r.applyDeadline <= now && !LeavesAlone(r, req, now))
        || (e == I.ClaimHeld && now < r.applyDeadline && Holding(r, now) && r.claim.value.residencyEpoch == residency
            && r.claim.value.expiresAt != expires)
    case BeginAttempt(_, attempt) =>
      if Finished(r) then e == I.AlreadyTerminal
      else if r.state != I.Claimed || r.claim.None? then e == I.WrongState
      else if Behind(r, attempt.residencyEpoch) then e == I.Superseded(r.claim.value.residencyEpoch)
      else e == I.ClaimLost && (r.claim.value.residencyEpoch < attempt.residencyEpoch || !Holding(r, now))
    case Settle(_, residency) =>
      && !Finished(r)
      && if r.state != I.Applying || r.attempt.None? || r.claim.None? then e == I.WrongState
         else if Behind(r, residency) then e == I.Superseded(r.claim.value.residencyEpoch)
         else if evidence.Err? then e == evidence.error
         else e == I.NoEvidence && !AboutAttempt(r.attempt.value, evidence.value)
    case RejectIt(_, residency) =>
      && !LeavesAlone(r, req, now)
      && if Finished(r) then e == I.AlreadyTerminal
         else if r.attempt.Some? then e == I.WrongState
         else if residency != 0 && Behind(r, residency) then e == I.Superseded(r.claim.value.residencyEpoch)
         else e == I.ClaimHeld && Holding(r, now) && residency != r.claim.value.residencyEpoch
  }

  lemma OutcomeExactlyWhen(attempt: Attempt, e: Evidence, residency: uint64, now: Instant)
    ensures VerifiedOutcome(attempt, e, residency, now) ==
              if AboutAttempt(attempt, e)
              then Ok(Outcome(e.kind, e.attemptID, e.attemptJournalEpoch, e.authorJournalEpoch, e.dispositionSeq, e.authorFenceSeq,
                              e.eventID, e.eventSeq, residency, now))
              else Err(I.NoEvidence)
  {
  }

  /** Every one of the four requests is answered exactly one way, by a rule that can be
      read off the record: it writes, it leaves the record alone, or it is refused. */
  lemma DecidedExactlyWhenAllowed(r: Record, req: Request, now: Instant, evidence: Result<Evidence, Error>)
    ensures var d := Decide(r, req, now, evidence);
            && (d.Ok? && d.value.Write? <==> Changes(r, req, now, evidence))
            && (d == Ok(Unchanged) <==> LeavesAlone(r, req, now))
  {
    if req.Settle? && r.attempt.Some? && evidence.Ok? { OutcomeExactlyWhen(r.attempt.value, evidence.value, req.residency, now); }
  }

  /** And refused exactly when the refusal's own rule is the one that is met. */
  lemma RefusedExactlyWhen(r: Record, req: Request, now: Instant, evidence: Result<Evidence, Error>, e: Error)
    ensures Decide(r, req, now, evidence) == Err(e) <==> RefusedFor(e, r, req, now, evidence)
  {
    if req.Settle? && r.attempt.Some? && evidence.Ok? { OutcomeExactlyWhen(r.attempt.value, evidence.value, req.residency, now); }
  }

  /** Everything a transition writes is accepted by the record's own validator,
      with one exception: a settlement read at an instant no record can carry. */
  lemma WritesAreValidExactlyWhen(validOpaque: Text -> bool, r: Record, req: Request, now: Instant, evidence: Result<Evidence, Error>)
    requires ValidState(validOpaque, r) && ValidRequest(validOpaque, req, now)
    requires var d := Decide(r, req, now, evidence); d.Ok? && d.value.Write?
    ensures var s := Decide(r, req, now, evidence).value.next;
            && Edge(r, s, req, now, evidence)
            && (ValidState(validOpaque, s) <==> (req.Settle? ==> Rankable(now)))
  {
  }

  /** The exception is real: any settlement that evidence would otherwise carry, read at
      an instant no record can hold, decides a write the record's own validator refuses. */
  lemma UnrankableSettlementsAreRefused(validOpaque: Text -> bool, r: Record, e: Evidence, residency: uint64, now: Instant)
    requires ValidState(validOpaque, r) && r.state == I.Applying && residency >= Mark(r) && !Rankable(now)
    requires VerifiedOutcome(r.attempt.value, e, residency, now).Ok?
    ensures var d := Decide(r, Settle(1, residency), now, Ok(e));
            d.Ok? && d.value.Write? && !ValidState(validOpaque, d.value.next)
  {
  }

  /** And there is one: a record, its evidence, and an instant a second too late. */
  lemma AnUnrankableSettlement(validOpaque: Text -> bool, id: Text)
    requires validOpaque(id)
    ensures exists r: Record, e: Evidence, now: Instant ::
              && ValidState(validOpaque, r) && ValidRequest(validOpaque, Settle(1, 1), now)
              && var d := Decide(r, Settle(1, 1), now, Ok(e));
              d.Ok? && d.value.Write? && !ValidState(validOpaque, d.value.next)
  {
    var attempt := Attempt(id, 1, 1, 0);
    var r := Record(Descriptor(false, [], [], [], [], 0, None, map[]), 0, 0, I.Applying, Some(Claim(1, 0)), Some(attempt), None);
    var e := Evidence(id, AppliedKind(), 1, 1, 1, 0, [], 0);
    var now: Instant := MAX_RANKABLE + 1_000_000_000;
    assert AppliedKind()[0] == 97 && NotAppliedKind()[0] == 110 && RefusedKind()[0] == 114;
    UnrankableSettlementsAreRefused(validOpaque, r, e, 1, now);
    assert ValidState(validOpaque, r) && ValidRequest(validOpaque, Settle(1, 1), now);
  }

  // ---- the search ------------------------------------------------------------------------

  datatype RuntimeRecord = RuntimeRecord(seqNo: nat, env: Envelope)

  datatype Search = Search(found: Option<Evidence>, fenceEpoch: uint64, fenceSeq: nat)

  const NEW_SEARCH := Search(None, 0, 0)

  predicate NamesAttempt(env: Envelope, req: EvidenceRequest) {
    env.IsDisposition() && env.attemptID == req.attempt.attemptID
  }

  predicate Agrees(env: Envelope, req: EvidenceRequest) {
    env.commandID == req.commandID && env.runtimeCommandID == req.runtime && env.commandKind == req.kind
  }

  function EvidenceFrom(env: Envelope, seqNo: nat, fenceEpoch: uint64, fenceSeq: nat, req: EvidenceRequest): Evidence {
    Evidence(req.attempt.attemptID, env.dispositionKind, env.attemptJournalEpoch, fenceEpoch, seqNo,
             if env.dispositionKind == NotAppliedKind() then fenceSeq else 0, [], 0)
  }

  function Examine(req: EvidenceRequest, s: Search, record: RuntimeRecord): Result<Search, Error> {
    var env := record.env;
    if env.IsFence() then Ok(s.(fenceEpoch := env.leaseEpoch, fenceSeq := record.seqNo))
    else if !NamesAttempt(env, req) then Ok(s)
    else if !Agrees(env, req) then Err(I.NoEvidence)
    else if s.fenceEpoch == 0 then Err(I.NoEvidence)
    else if env.leaseEpoch != s.fenceEpoch then Err(I.NoEvidence)
    else if s.found.Some? then Err(I.NoEvidence)
    else Ok(s.(found := Some(EvidenceFrom(env, record.seqNo, s.fenceEpoch, s.fenceSeq, req))))
  }

  function ExamineAll(req: EvidenceRequest, s: Search, records: seq<RuntimeRecord>): Result<Search, Error> {
    if records == [] then Ok(s)
    else
      var before := ExamineAll(req, s, records[..|records| - 1]);
      if before.Err? then before else Examine(req, before.value, records[|records| - 1])
  }

  function Numbered(journal: seq<Envelope>): seq<RuntimeRecord> {
    seq(|journal|, i requires 0 <= i < |journal| => RuntimeRecord(i + 1, journal[i]))
  }

  /** What a search of exactly this journal returns. */
  function EvidenceIn(req: EvidenceRequest, journal: seq<Envelope>): Result<Evidence, Error> {
    var s := ExamineAll(req, NEW_SEARCH, Numbered(journal));
    if s.Err? then Err(s.error) else if s.value.found.None? then Err(I.NoEvidence) else Ok(s.value.found.value)
  }

  /** The sequence of the nearest opening fence before position `n`, zero for none. */
  function NearestFenceSeq(journal: seq<Envelope>, n: nat): nat
    requires n <= |journal|
  {
    if n == 0 then 0 else if journal[n - 1].IsFence() then n else NearestFenceSeq(journal, n - 1)
  }

  /** A disposition of this very attempt. */
  predicate Attributed(env: Envelope, req: EvidenceRequest) {
    env.kind == KIND_COMMAND_DISPOSITION && env.attemptID == req.attempt.attemptID
  }

  /** The disposition at `p` names the attempt, agrees with the record, and was
      written under the grant whose fence it follows. */
  predicate Attests(journal: seq<Envelope>, req: EvidenceRequest, p: nat)
    requires p < |journal|
  {
    && Attributed(journal[p], req) && journal[p].commandID == req.commandID && journal[p].runtimeCommandID == req.runtime
    && journal[p].commandKind == req.kind
    && J.NearestFence(journal, p) != 0 && journal[p].leaseEpoch == J.NearestFence(journal, p)
  }

  ghost predicate OnlyAt(journal: seq<Envelope>, req: EvidenceRequest, p: nat, n: nat)
    requires n <= |journal|
  {
    forall q :: 0 <= q < n && Attributed(journal[q], req) ==> q == p
  }

  function EvidenceAt(journal: seq<Envelope>, req: EvidenceRequest, p: nat): Evidence
    requires p < |journal|
  {
    EvidenceFrom(journal[p], p + 1, J.NearestFence(journal, p), NearestFenceSeq(journal, p), req)
  }

  ghost predicate Unnamed(journal: seq<Envelope>, req: EvidenceRequest, n: nat)
    requires n <= |journal|
  {
    forall q :: 0 <= q < n ==> !NamesAttempt(journal[q], req)
  }

  ghost predicate SoleAttestation(journal: seq<Envelope>, req: EvidenceRequest, p: nat, n: nat)
    requires n <= |journal|
  {
    p < n && Attests(journal, req, p) && OnlyAt(journal, req, p, n)
  }

  /** How far a search of the first `n` records has got. */
  ghost predicate Searched(journal: seq<Envelope>, req: EvidenceRequest, n: nat, s: Result<Search, Error>)
    requires n <= |journal|
  {
    match s
    case Err(_) => !Unnamed(journal, req, n) && forall p :: !SoleAttestation(journal, req, p, n)
    case Ok(search) =>
      && search.fenceEpoch == J.NearestFence(journal, n) && search.fenceSeq == NearestFenceSeq(journal, n)
      && (search.found.None? ==> Unnamed(journal, req, n))
      && (search.found.Some? ==> exists p :: SoleAttestation(journal, req, p, n) && search.found.value == EvidenceAt(journal, req, p))
  }

  lemma SearchStep(journal: seq<Envelope>, req: EvidenceRequest, n: nat, s: Search)
    requires n < |journal| && Searched(journal, req, n, Ok(s))
    ensures Searched(journal, req, n + 1, Examine(req, s, RuntimeRecord(n + 1, journal[n])))
  {
    var next := Examine(req, s, RuntimeRecord(n + 1, journal[n]));
    if s.found.Some? {
      var p: nat :| SoleAttestation(journal, req, p, n) && s.found.value == EvidenceAt(journal, req, p);
      if NamesAttempt(journal[n], req) {
        var m := n + 1;
        forall q: nat ensures !SoleAttestation(journal, req, q, m) {
          assert NamesAttempt(journal[p], req);
        }
      } else {
        assert SoleAttestation(journal, req, p, n + 1);
      }
    } else if NamesAttempt(journal[n], req) && next.Ok? {
      assert SoleAttestation(journal, req, n, n + 1);
    }
  }

  lemma SearchFailsForGood(journal: seq<Envelope>, req: EvidenceRequest, n: nat, e: Error)
    requires n < |journal| && Searched(journal, req, n, Err(e))
    ensures Searched(journal, req, n + 1, Err(e))
  {
    var q :| 0 <= q < n && NamesAttempt(journal[q], req);
    var m := n + 1;
    forall p: nat ensures !SoleAttestation(journal, req, p, m) {
      if SoleAttestation(journal, req, p, m) {
        assert p == q;
        assert SoleAttestation(journal, req, p, n);
      }
    }
  }

  lemma {:induction false} SearchMeaning(journal: seq<Envelope>, req: EvidenceRequest, n: nat)
    requires n <= |journal|
    ensures Searched(journal, req, n, ExamineAll(req, NEW_SEARCH, Numbered(journal)[..n]))
  {
    var records := Numbered(journal)[..n];
    if n > 0 {
      SearchMeaning(journal, req, n - 1);
      assert records[..n - 1] == Numbered(journal)[..n - 1];
      var before := ExamineAll(req, NEW_SEARCH, records[..n - 1]);
      if before.Ok? { SearchStep(journal, req, n - 1, before.value); } else { SearchFailsForGood(journal, req, n - 1, before.error); }
    }
  }

  /** A search returns evidence exactly when one disposition, and only one, names
      the attempt, agrees with the record on all three identities, and carries the
      epoch of its nearest preceding opening fence; and then exactly that one's. */
  lemma EvidenceMeaning(journal: seq<Envelope>, req: EvidenceRequest, e: Evidence)
    ensures EvidenceIn(req, journal) == Ok(e) <==>
              exists p :: SoleAttestation(journal, req, p, |journal|) && e == EvidenceAt(journal, req, p)
  {
    SearchMeaning(journal, req, |journal|);
    assert Numbered(journal)[..|journal|] == Numbered(journal);
    var s := ExamineAll(req, NEW_SEARCH, Numbered(journal));
    forall p: nat, q: nat | SoleAttestation(journal, req, p, |journal|) && SoleAttestation(journal, req, q, |journal|) ensures p == q {
      assert NamesAttempt(journal[q], req);
    }
    if p: nat :| SoleAttestation(journal, req, p, |journal|) && e == EvidenceAt(journal, req, p) {
      assert NamesAttempt(journal[p], req);
    }
  }

  lemma {:induction false} FencesOfPrefix(journal: seq<Envelope>, later: seq<Envelope>, n: nat)
    requires journal <= later && n <= |journal|
    ensures J.NearestFence(later, n) == J.NearestFence(journal, n)
    ensures NearestFenceSeq(later, n) == NearestFenceSeq(journal, n)
  {
    if n > 0 { FencesOfPrefix(journal, later, n - 1); }
  }

  /** Two settlers reading the journal at different tips never disagree: whatever
      both find is the same evidence, so the same outcome but for its instant. */
  lemma SettlersAgree(journal: seq<Envelope>, later: seq<Envelope>, req: EvidenceRequest)
    requires journal <= later && EvidenceIn(req, journal).Ok? && EvidenceIn(req, later).Ok?
    ensures EvidenceIn(req, journal) == EvidenceIn(req, later)
  {
    var e, f := EvidenceIn(req, journal).value, EvidenceIn(req, later).value;
    EvidenceMeaning(journal, req, e);
    EvidenceMeaning(later, req, f);
    var p: nat :| SoleAttestation(journal, req, p, |journal|) && e == EvidenceAt(journal, req, p);
    var q: nat :| SoleAttestation(later, req, q, |later|) && f == EvidenceAt(later, req, q);
    FencesOfPrefix(journal, later, p);
    assert NamesAttempt(later[p], req);
  }
}
