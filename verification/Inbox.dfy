/** One accepted command's authoritative record, what each state may carry, and
    the decisions that move it. Every decision is a function of the record a
    caller read, the caller's request and one earlier reading of the store's
    clock; the two settlements take the journal's evidence as well. */
module Inbox {
  import opened Wrappers
  import opened Bytes
  import opened Clock
  import opened Storage
  import Recovery

  const MAX_COMMAND_CLAIM_TTL := HOUR
  const MAX_INBOX_PAYLOAD_BYTES: nat := 0x1_0000

  datatype InboxState = Pending | Claimed | Applying | Applied | Rejected {
    predicate Terminal() { Applied? || Rejected? }
  }

  /** The zero value means the command is unclaimed. */
  datatype CommandClaim = CommandClaim(leaseEpoch: uint64, expiresAt: Instant) {
    predicate IsZero() { leaseEpoch == 0 && expiresAt == ZERO_INSTANT }
  }

  const NO_CLAIM := CommandClaim(0, ZERO_INSTANT)

  datatype CommandResult = CommandResult(completedAt: Instant, eventID: Text, journalSeq: uint64) {
    predicate IsZero() { completedAt == ZERO_INSTANT && eventID == [] && journalSeq == 0 }
  }

  const NO_RESULT := CommandResult(ZERO_INSTANT, [], 0)

  datatype InboxRecord = InboxRecord(
    tenantID: Text,
    sessionID: Text,
    commandID: Text,
    runtimeCommandID: Text,
    kind: Text,
    payload: seq<byte>,
    payloadRef: Text,
    acceptedAt: Instant,
    applyDeadline: Instant,
    state: InboxState,
    claim: CommandClaim,
    result: CommandResult,
    rejection: Option<Text>)

  datatype InboxError =
    | InvalidRequest | Missing | Deleted | Conflict(revision: nat) | AlreadyTerminal | WrongState
    | Superseded(committed: nat) | PastDeadline | ClaimHeld | ClaimLost | NoEvidence
    | CommandMismatch | Journal(fault: Recovery.JournalError)

  /** What Core decides about the members this package does not own. */
  datatype InboxRules = InboxRules(
    validID: Text -> bool,
    validOpaque: Text -> bool,
    validReference: Text -> bool,
    validRejection: Text -> bool)

  // ---- the record -----------------------------------------------------------

  predicate ValidClaim(claim: CommandClaim) {
    claim.IsZero() || (claim.leaseEpoch != 0 && Rankable(claim.expiresAt))
  }

  predicate ValidResult(rules: InboxRules, result: CommandResult) {
    result.IsZero() || (rules.validID(result.eventID) && result.journalSeq != 0 && Rankable(result.completedAt))
  }

  predicate ValidState(r: InboxRecord) {
    var claimed, applied, rejected := !r.claim.IsZero(), !r.result.IsZero(), r.rejection.Some?;
    match r.state
    case Pending => !claimed && !applied && !rejected
    case Claimed => claimed && !applied && !rejected
    case Applying => claimed && !applied && !rejected
    case Applied => claimed && applied && !rejected
    case Rejected => rejected && !applied
  }

  predicate ValidRecord(rules: InboxRules, r: InboxRecord) {
    && rules.validID(r.tenantID) && rules.validID(r.sessionID) && rules.validID(r.commandID)
    && rules.validOpaque(r.runtimeCommandID) && rules.validOpaque(r.kind)
    && |r.payload| <= MAX_INBOX_PAYLOAD_BYTES
    && !(|r.payload| > 0 && r.payloadRef != [])
    && (r.payloadRef != [] ==> rules.validReference(r.payloadRef))
    && Rankable(r.acceptedAt) && Rankable(r.applyDeadline)
    && ValidClaim(r.claim) && ValidResult(rules, r.result)
    && (r.rejection.Some? ==> rules.validRejection(r.rejection.value))
    && ValidState(r)
  }

  predicate SameCommandAs(r: InboxRecord, other: InboxRecord) {
    r.kind == other.kind && r.payload == other.payload && r.payloadRef == other.payloadRef
  }

  /** The same command again: every member the two may not differ in is the same. */
  predicate SameContent(first: InboxRecord, retry: InboxRecord) {
    retry.(tenantID := first.tenantID, sessionID := first.sessionID, commandID := first.commandID,
           runtimeCommandID := first.runtimeCommandID, acceptedAt := first.acceptedAt, applyDeadline := first.applyDeadline,
           state := first.state, claim := first.claim, result := first.result, rejection := first.rejection) == first
  }

  /** Due at the earliest instant something has to look at the command again. */
  function InboxDue(r: InboxRecord): Due {
    if r.state.Terminal() then NotDue
    else if !r.claim.IsZero() && r.claim.expiresAt < r.applyDeadline then DueAt(UnixMilli(r.claim.expiresAt))
    else DueAt(UnixMilli(r.applyDeadline))
  }

  predicate ClaimLive(r: InboxRecord, now: Instant) { !r.claim.IsZero() && now < r.claim.expiresAt }

  /** What a scan correlates this record on. */
  function KeyOf(r: InboxRecord, parse: Text -> Uuid16): Recovery.CommandKey {
    Recovery.CommandKey(r.commandID, parse(r.runtimeCommandID), r.kind)
  }

  // ---- the transitions --------------------------------------------------------

  /** The complete set of members a transition may change. */
  datatype Transition = Transition(state: InboxState, claim: CommandClaim, result: CommandResult, rejection: Option<Text>)

  function Moved(r: InboxRecord, t: Transition): InboxRecord {
    r.(state := t.state, claim := t.claim, result := t.result, rejection := t.rejection)
  }

  datatype Request =
    | Claim(expectedRevision: nat, leaseEpoch: uint64, claimExpiresAt: Instant)
    | BeginApplying(expectedRevision: nat, leaseEpoch: uint64, claimExpiresAt: Instant)
    | Complete(expectedRevision: nat, leaseEpoch: uint64, result: CommandResult)
    | Reject(expectedRevision: nat, leaseEpoch: uint64, rejection: Text)

  /** A request this store refuses before it reads anything. */
  predicate ValidRequest(rules: InboxRules, req: Request, now: Instant) {
    && req.expectedRevision != 0
    && (req.leaseEpoch == 0 ==> req.Reject?)
    && match req
       case Claim(_, epoch, expires) => ValidClaim(CommandClaim(epoch, expires)) && BoundedExpiry(expires, now, MAX_COMMAND_CLAIM_TTL)
       case BeginApplying(_, epoch, expires) => ValidClaim(CommandClaim(epoch, expires)) && BoundedExpiry(expires, now, MAX_COMMAND_CLAIM_TTL)
       case Complete(_, _, result) => !result.IsZero() && ValidResult(rules, result)
       case Reject(_, _, rejection) => rules.validRejection(rejection)
  }

  /** What every transition requires of the record it read. */
  function Current(r: InboxRecord, revision: nat, req: Request): Option<InboxError> {
    if revision != req.expectedRevision then Some(Conflict(revision))
    else if r.state.Terminal() then Some(AlreadyTerminal)
    else None
  }

  function EpochFence(committed: nat, requested: nat): Option<InboxError> {
    if requested < committed then Some(Superseded(committed)) else None
  }

  function DecideClaim(r: InboxRecord, req: Request, now: Instant): Result<Transition, InboxError>
    requires req.Claim?
  {
    if r.state == Applying then Err(WrongState)
    else if EpochFence(r.claim.leaseEpoch, req.leaseEpoch).Some? then Err(Superseded(r.claim.leaseEpoch))
    else if now >= r.applyDeadline then Err(PastDeadline)
    else if ClaimLive(r, now) && req.leaseEpoch == r.claim.leaseEpoch then Err(ClaimHeld)
    else Ok(Transition(Claimed, CommandClaim(req.leaseEpoch, req.claimExpiresAt), NO_RESULT, None))
  }

  function DecideBegin(r: InboxRecord, req: Request, now: Instant): Result<Transition, InboxError>
    requires req.BeginApplying?
  {
    if r.state != Claimed then Err(WrongState)
    else if EpochFence(r.claim.leaseEpoch, req.leaseEpoch).Some? then Err(Superseded(r.claim.leaseEpoch))
    else if req.leaseEpoch != r.claim.leaseEpoch then Err(ClaimLost)
    else if !ClaimLive(r, now) then Err(ClaimLost)
    else Ok(Transition(Applying, CommandClaim(req.leaseEpoch, req.claimExpiresAt), NO_RESULT, None))
  }

  /** A strictly greater epoch completes only on the journal's evidence; the
      claim's own epoch is taken at its word. */
  function DecideComplete(r: InboxRecord, req: Request, app: Recovery.CommandApplication): Result<Transition, InboxError>
    requires req.Complete?
  {
    if r.state != Applying then Err(WrongState)
    else if EpochFence(r.claim.leaseEpoch, req.leaseEpoch).Some? then Err(Superseded(r.claim.leaseEpoch))
    else if req.leaseEpoch != r.claim.leaseEpoch && !app.NamesEffect(req.result.eventID, req.result.journalSeq) then Err(NoEvidence)
    else Ok(Transition(Applied, r.claim, req.result, None))
  }

  /** A lapsed applying claim: the one settlement that needs a fence as well. */
  predicate Recovering(r: InboxRecord, now: Instant) { !ClaimLive(r, now) && r.state == Applying }

  /** Who may reject, before the journal is consulted. */
  function RejectAuthority(r: InboxRecord, req: Request, now: Instant): Option<InboxError>
    requires req.Reject?
  {
    if req.leaseEpoch != 0 && EpochFence(r.claim.leaseEpoch, req.leaseEpoch).Some? then Some(Superseded(r.claim.leaseEpoch))
    else if ClaimLive(r, now) && req.leaseEpoch != r.claim.leaseEpoch then Some(ClaimHeld)
    else if Recovering(r, now) && req.leaseEpoch <= r.claim.leaseEpoch then Some(ClaimLost)
    else None
  }

  /** The holder of a live claim; over a lapsed application, a strictly higher epoch;
      otherwise anyone who does not name a superseded one. */
  predicate MayReject(r: InboxRecord, epoch: nat, now: Instant) {
    if Holding(r, now) then epoch == r.claim.leaseEpoch
    else if r.state == Applying then r.claim.leaseEpoch < epoch
    else epoch == 0 || r.claim.leaseEpoch <= epoch
  }

  /** Exactly those are let past, and each refusal says which rule it met. */
  lemma AuthorityMeaning(r: InboxRecord, req: Request, now: Instant)
    requires req.Reject?
    ensures var refused := RejectAuthority(r, req, now);
            && (refused.None? <==> MayReject(r, req.leaseEpoch, now))
            && (refused == Some(Superseded(r.claim.leaseEpoch)) <==> 0 < req.leaseEpoch < r.claim.leaseEpoch)
            && (refused == Some(ClaimHeld) ==> ClaimLive(r, now) && req.leaseEpoch != r.claim.leaseEpoch)
            && (refused == Some(ClaimLost) ==> Recovering(r, now) && req.leaseEpoch <= r.claim.leaseEpoch)
            && (refused.Some? ==> refused == Some(Superseded(r.claim.leaseEpoch)) || refused == Some(ClaimHeld) || refused == Some(ClaimLost))
  {
  }

  function DecideReject(r: InboxRecord, req: Request, now: Instant, app: Recovery.CommandApplication): Result<Transition, InboxError>
    requires req.Reject?
  {
    var refused := RejectAuthority(r, req, now);
    if refused.Some? then Err(refused.value)
    else if !app.ProvesNoEffect() then Err(NoEvidence)
    else if Recovering(r, now) && !app.Fences(r.claim.leaseEpoch) then Err(NoEvidence)
    else Ok(Transition(Rejected, r.claim, NO_RESULT, Some(req.rejection)))
  }

  /** The journal is scanned for every rejection that has the authority to go
      ahead, and for a completion under a greater epoch. */
  predicate NeedsScan(r: InboxRecord, req: Request, now: Instant) {
    || (req.Reject? && RejectAuthority(r, req, now).None?)
    || (req.Complete? && r.state == Applying && req.leaseEpoch > r.claim.leaseEpoch)
  }

  function Decide(r: InboxRecord, revision: nat, req: Request, now: Instant, app: Recovery.CommandApplication): Result<Transition, InboxError> {
    var stale := Current(r, revision, req);
    if stale.Some? then Err(stale.value)
    else match req
      case Claim(_, _, _) => DecideClaim(r, req, now)
      case BeginApplying(_, _, _) => DecideBegin(r, req, now)
      case Complete(_, _, _) => DecideComplete(r, req, app)
      case Reject(_, _, _) => DecideReject(r, req, now, app)
  }

  // ---- what a transition may do ------------------------------------------------

  function StatusRank(s: InboxState): nat {
    match s
    case Pending => 0
    case Claimed => 1
    case Applying => 2
    case Applied => 3
    case Rejected => 3
  }

  datatype PublicStatus = StatusAccepted | StatusPending | StatusApplied | StatusRejected

  function CommandStatus(r: InboxRecord): PublicStatus {
    match r.state
    case Pending => StatusAccepted
    case Claimed => StatusPending
    case Applying => StatusPending
    case Applied => StatusApplied
    case Rejected => StatusRejected
  }

  /** Accepted, then pending, then one of the two settled ones. */
  function PublicRank(s: PublicStatus): nat {
    match s
    case StatusAccepted => 0
    case StatusPending => 1
    case StatusApplied => 2
    case StatusRejected => 2
  }

  /** Members admission fixed; no transition has a way to change them. */
  predicate SameAdmission(r: InboxRecord, s: InboxRecord) {
    r.(state := s.state, claim := s.claim, result := s.result, rejection := s.rejection) == s
  }

  /** The record a request asks for. */
  function Asked(r: InboxRecord, req: Request): InboxRecord {
    match req
    case Claim(_, epoch, expires) => r.(state := Claimed, claim := CommandClaim(epoch, expires))
    case BeginApplying(_, epoch, expires) => r.(state := Applying, claim := CommandClaim(epoch, expires))
    case Complete(_, _, result) => r.(state := Applied, result := result)
    case Reject(_, _, rejection) => r.(state := Rejected, rejection := Some(rejection))
  }

  /** Someone's claim on the command has not expired. */
  predicate Holding(r: InboxRecord, now: Instant) { r.claim != NO_CLAIM && r.claim.expiresAt > now }

  predicate Finished(r: InboxRecord) { r.state == Applied || r.state == Rejected }

  /** Whether the record, the clock and the journal's evidence allow it. A live claim
      is displaced only by a strictly higher epoch, and only its holder may apply or
      reject under it; no claim starts past the deadline; a higher epoch completes
      only the effect the journal names; no rejection goes over a possible effect, nor
      over a lapsed application until a fence has ended its writer. */
  predicate Allowed(r: InboxRecord, req: Request, now: Instant, app: Recovery.CommandApplication) {
    && !Finished(r)
    && (req.leaseEpoch != 0 || !req.Reject? ==> r.claim.leaseEpoch <= req.leaseEpoch)
    && match req
       case Claim(_, epoch, _) => r.state != Applying && now < r.applyDeadline && (Holding(r, now) ==> r.claim.leaseEpoch < epoch)
       case BeginApplying(_, epoch, _) => r.state == Claimed && Holding(r, now) && epoch == r.claim.leaseEpoch
       case Complete(_, epoch, result) =>
         r.state == Applying && (r.claim.leaseEpoch < epoch ==> app.NamesEffect(result.eventID, result.journalSeq))
       case Reject(_, epoch, _) =>
         && app.ProvesNoEffect() && (Holding(r, now) ==> epoch == r.claim.leaseEpoch)
         && (r.state == Applying && !Holding(r, now) ==> r.claim.leaseEpoch < epoch && app.Fences(r.claim.leaseEpoch))
  }

  /** One edge of the machine: what was asked for, allowed, and never backwards. */
  ghost predicate Edge(r: InboxRecord, s: InboxRecord, req: Request, now: Instant, app: Recovery.CommandApplication) {
    && s == Asked(r, req) && Allowed(r, req, now, app) && SameAdmission(r, s)
    && (r.state == s.state ==> s.state == Claimed) && (r.state == Applying ==> s.state.Terminal())
    && StatusRank(r.state) <= StatusRank(s.state)
    && r.claim.leaseEpoch <= s.claim.leaseEpoch
  }

  /** A transition is decided exactly when it names the current revision and is
      allowed, and then yields a storable record along that edge. */
  lemma DecidedExactlyWhenAllowed(rules: InboxRules, r: InboxRecord, revision: nat, req: Request, now: Instant, app: Recovery.CommandApplication)
    requires ValidRecord(rules, r) && ValidRequest(rules, req, now)
    ensures Decide(r, revision, req, now, app).Ok? <==> revision == req.expectedRevision && Allowed(r, req, now, app)
    ensures Decide(r, revision, req, now, app).Ok? ==>
              var s := Moved(r, Decide(r, revision, req, now, app).value);
              ValidRecord(rules, s) && Edge(r, s, req, now, app)
  {
  }

  // ---- every answer, read off the record ---------------------------------------

  /** What each refusal means, each by its own rule. */
  predicate RefusedFor(e: InboxError, r: InboxRecord, revision: nat, req: Request, now: Instant, app: Recovery.CommandApplication) {
    if revision != req.expectedRevision then e == Conflict(revision)
    else if Finished(r) then e == AlreadyTerminal
    else match e
      case WrongState =>
        || (req.Claim? && r.state == Applying) || (req.BeginApplying? && r.state != Claimed) || (req.Complete? && r.state != Applying)
      case Superseded(committed) =>
        && committed == r.claim.leaseEpoch && req.leaseEpoch < committed
        && (match req
            case Claim(_, _, _) => r.state != Applying
            case BeginApplying(_, _, _) => r.state == Claimed
            case Complete(_, _, _) => r.state == Applying
            case Reject(_, epoch, _) => epoch > 0)
      case PastDeadline => req.Claim? && r.state != Applying && r.claim.leaseEpoch <= req.leaseEpoch && r.applyDeadline <= now
      case ClaimHeld =>
        && Holding(r, now)
        && (match req
            case Claim(_, epoch, _) => r.state != Applying && epoch == r.claim.leaseEpoch && now < r.applyDeadline
            case Reject(_, epoch, _) => epoch == 0 < r.claim.leaseEpoch || r.claim.leaseEpoch < epoch
            case _ => false)
      case ClaimLost =>
        (match req
         case BeginApplying(_, epoch, _) =>
           r.state == Claimed && (r.claim.leaseEpoch < epoch || (epoch == r.claim.leaseEpoch && !Holding(r, now)))
         case Reject(_, epoch, _) => r.state == Applying && !Holding(r, now) && (epoch == 0 || epoch == r.claim.leaseEpoch)
         case _ => false)
      case NoEvidence =>
        (match req
         case Complete(_, epoch, result) =>
           r.state == Applying && r.claim.leaseEpoch < epoch && !app.NamesEffect(result.eventID, result.journalSeq)
         case Reject(_, epoch, _) =>
           && (if Holding(r, now) then epoch == r.claim.leaseEpoch
               else if r.state == Applying then r.claim.leaseEpoch < epoch else epoch == 0 || r.claim.leaseEpoch <= epoch)
           && (!app.ProvesNoEffect() || (r.state == Applying && !Holding(r, now) && !app.Fences(r.claim.leaseEpoch)))
         case _ => false)
      case _ => false
  }

  /** Every refusal is given exactly when its own rule is the one that is met. */
  lemma RefusedExactlyWhen(rules: InboxRules, r: InboxRecord, revision: nat, req: Request, now: Instant,
                           app: Recovery.CommandApplication, e: InboxError)
    requires ValidRecord(rules, r)
    ensures Decide(r, revision, req, now, app) == Err(e) <==> RefusedFor(e, r, revision, req, now, app)
  {
  }

  /** A command in flight is filed due no later than its deadline, whatever its
      claim says, and a settled one nowhere; from the moment its deadline passes or
      its claim lapses a reconciler paging by the clock is shown it. */
  lemma DueByDeadline(r: InboxRecord, now: Instant)
    ensures r.state.Terminal() <==> InboxDue(r) == NotDue
    ensures !r.state.Terminal() ==> InboxDue(r).DueAt? && InboxDue(r).unixMillis <= UnixMilli(r.applyDeadline)
    ensures !r.state.Terminal() && (r.applyDeadline <= now || (!r.claim.IsZero() && r.claim.expiresAt <= now)) ==>
              InboxDue(r).unixMillis <= UnixMilli(now)
    ensures !r.state.Terminal() && InboxDue(r).unixMillis <= UnixMilli(now) ==>
              r.applyDeadline - now < 1_000_000 || (!r.claim.IsZero() && r.claim.expiresAt - now < 1_000_000)
  {
    FiledToTheMillisecond(r.applyDeadline, now);
    FiledToTheMillisecond(r.claim.expiresAt, now);
    FiledToTheMillisecond(r.claim.expiresAt, r.applyDeadline);
  }
}
