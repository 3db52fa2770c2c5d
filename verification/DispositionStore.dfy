/** Disposition commands over one ordered index. Evidence is whatever the configured
    reader answers: the store holds every answer to the attempt it asked about. */
module DispositionStores {
  import opened Wrappers
  import opened Bytes
  import opened Clock
  import opened Storage
  import opened Dispositions
  import I = Inbox

  datatype Entry = Entry(record: Record, acceptedOrder: nat, revision: nat)

  function EntryOf(row: Row<Record>): Entry { Entry(row.value, row.order, row.revision) }

  predicate Filed(validOpaque: Text -> bool, key: Text, row: Row<Record>) {
    && row.revision > 0 && row.order > 0
    && (!row.deleted ==>
          && ValidState(validOpaque, row.value) && row.value.descriptor.commandID == key
          && row.rank == Unranked && row.due == DispositionDue(row.value))
  }

  predicate AllFiled(validOpaque: Text -> bool, rows: Rows<Record>, lastOrder: nat) {
    forall k :: k in rows ==> Filed(validOpaque, k, rows[k]) && rows[k].order <= lastOrder
  }

  /** What a call answers: an entry and whether this call wrote it, or a refusal. */
  type Answer = Result<(Entry, bool), I.InboxError>

  function Refiled(row: Row<Record>, next: Record): Row<Record> {
    row.(value := next, revision := row.revision + 1, rank := Unranked, due := DispositionDue(next))
  }

  /** One call against one state of the rows: the answer, and the rows after it. */
  function Transitioned(validOpaque: Text -> bool, rows: Rows<Record>, command: Text, req: Request, now: Instant,
                        evidence: Result<Evidence, I.InboxError>): (Answer, Rows<Record>) {
    if !ValidRequest(validOpaque, req, now) then (Err(I.InvalidRequest), rows)
    else if command !in rows then (Err(I.Missing), rows)
    else if rows[command].deleted then (Err(I.Deleted), rows)
    else if rows[command].revision != req.expectedRevision then (Err(I.Conflict(rows[command].revision)), rows)
    else
      var row := rows[command];
      var d := Decide(row.value, req, now, evidence);
      if d.Err? then (Err(d.error), rows)
      else if d.value.Unchanged? then (Ok((EntryOf(row), false)), rows)
      else if !ValidState(validOpaque, d.value.next) then (Err(I.InvalidRequest), rows)
      else (Ok((EntryOf(Refiled(row, d.value.next)), true)), rows[command := Refiled(row, d.value.next)])
  }

  /** Every call leaves every row filed, only ever moves its own row, along an edge
      of the lifecycle, and never changes a row's identity or order. */
  lemma TransitionKeepsRows(validOpaque: Text -> bool, rows: Rows<Record>, lastOrder: nat, command: Text, req: Request,
                            now: Instant, evidence: Result<Evidence, I.InboxError>)
    requires AllFiled(validOpaque, rows, lastOrder)
    ensures var (answer, next) := Transitioned(validOpaque, rows, command, req, now, evidence);
            && AllFiled(validOpaque, next, lastOrder) && next.Keys == rows.Keys
            && (forall k :: k in rows && k != command ==> next[k] == rows[k])
            && (answer.Err? ==> next == rows)
            && (answer.Ok? && answer.value.1 ==>
                  && command in rows && next[command].order == rows[command].order
                  && next[command].revision == rows[command].revision + 1
                  && Edge(rows[command].value, next[command].value, req, now, evidence)
                  && answer.value.0 == EntryOf(next[command]))
            && (answer.Ok? && !answer.value.1 ==> next == rows && command in rows && answer.value.0 == EntryOf(rows[command]))
  {
    var (answer, next) := Transitioned(validOpaque, rows, command, req, now, evidence);
    if answer.Ok? && answer.value.1 {
      WritesAreValidExactlyWhen(validOpaque, rows[command].value, req, now, evidence);
    }
  }

  // ---- when a call writes ------------------------------------------------------------------

  predicate GoodRequest(validOpaque: Text -> bool, req: Request, now: Instant) {
    && req.expectedRevision >= 1
    && match req
       case ClaimIt(_, residency, expires) => residency >= 1 && Rankable(expires) && now < expires <= now + 3_600_000_000_000
       case BeginAttempt(_, a) => validOpaque(a.attemptID) && a.journalEpoch >= 1 && a.residencyEpoch >= 1 && Rankable(a.startedAt)
       case Settle(_, residency) => residency >= 1
       case RejectIt(_, _) => true
  }

  predicate Meets(rows: Rows<Record>, command: Text, req: Request) {
    command in rows && !rows[command].deleted && rows[command].revision == req.expectedRevision
  }

  /** A call writes exactly when its request is a good one, meets its row, and changes the
      record; and a settlement only at an instant a record can hold. */
  predicate Writable(validOpaque: Text -> bool, rows: Rows<Record>, command: Text, req: Request, now: Instant,
                     evidence: Result<Evidence, I.InboxError>) {
    && GoodRequest(validOpaque, req, now) && Meets(rows, command, req)
    && Changes(rows[command].value, req, now, evidence) && (req.Settle? ==> Rankable(now))
  }

  lemma WritesExactlyWhen(validOpaque: Text -> bool, rows: Rows<Record>, lastOrder: nat, command: Text, req: Request, now: Instant,
                          evidence: Result<Evidence, I.InboxError>)
    requires AllFiled(validOpaque, rows, lastOrder)
    ensures var (answer, next) := Transitioned(validOpaque, rows, command, req, now, evidence);
            && (answer.Ok? && answer.value.1 <==> Writable(validOpaque, rows, command, req, now, evidence))
            && (answer.Ok? && !answer.value.1 <==>
                  GoodRequest(validOpaque, req, now) && Meets(rows, command, req) && LeavesAlone(rows[command].value, req, now))
  {
    assert GoodRequest(validOpaque, req, now) <==> ValidRequest(validOpaque, req, now);
    if Meets(rows, command, req) {
      DecidedExactlyWhenAllowed(rows[command].value, req, now, evidence);
      if GoodRequest(validOpaque, req, now) && Changes(rows[command].value, req, now, evidence) {
        WritesAreValidExactlyWhen(validOpaque, rows[command].value, req, now, evidence);
      }
    }
  }

  /** Which refusal a caller is given: a bad request, no row, a tombstone, a stale revision,
      an instant no record can hold; past those, the record's own. */
  lemma RefusalsAreToldApart(validOpaque: Text -> bool, rows: Rows<Record>, lastOrder: nat, command: Text, req: Request, now: Instant,
                             evidence: Result<Evidence, I.InboxError>, e: I.InboxError)
    requires AllFiled(validOpaque, rows, lastOrder)
    ensures var answer := Transitioned(validOpaque, rows, command, req, now, evidence).0;
            if !GoodRequest(validOpaque, req, now) then answer == Err(I.InvalidRequest)
            else if command !in rows then answer == Err(I.Missing)
            else if rows[command].deleted then answer == Err(I.Deleted)
            else if rows[command].revision != req.expectedRevision then answer == Err(I.Conflict(rows[command].revision))
            else if Changes(rows[command].value, req, now, evidence) then
              (req.Settle? && !Rankable(now) <==> answer == Err(I.InvalidRequest))
            else answer == Err(e) <==> RefusedFor(e, rows[command].value, req, now, evidence)
  {
    assert GoodRequest(validOpaque, req, now) <==> ValidRequest(validOpaque, req, now);
    if Meets(rows, command, req) {
      DecidedExactlyWhenAllowed(rows[command].value, req, now, evidence);
      RefusedExactlyWhen(rows[command].value, req, now, evidence, e);
      if GoodRequest(validOpaque, req, now) && Changes(rows[command].value, req, now, evidence) {
        WritesAreValidExactlyWhen(validOpaque, rows[command].value, req, now, evidence);
      }
    }
  }

  /** Settling twice is settling once: a settled command answers its own record,
      whatever evidence a later settler brings. */
  lemma SettlingAgainChangesNothing(validOpaque: Text -> bool, rows: Rows<Record>, command: Text, first: Request, now: Instant,
                                    evidence: Result<Evidence, I.InboxError>, second: Request, later: Instant,
                                    other: Result<Evidence, I.InboxError>)
    requires first.Settle? && second.Settle? && ValidRequest(validOpaque, second, later)
    requires var (answer, next) := Transitioned(validOpaque, rows, command, first, now, evidence);
             answer.Ok? && command in next && next[command].revision == second.expectedRevision
    ensures var (answer, next) := Transitioned(validOpaque, rows, command, first, now, evidence);
            var (again, after) := Transitioned(validOpaque, next, command, second, later, other);
            after == next && again == Ok((answer.value.0, false))
  {
  }

  function AdmissionAnswer(rows: Rows<Record>, lastOrder: nat, r: Record): Answer {
    var command := r.descriptor.commandID;
    if command !in rows then Ok((Entry(r, lastOrder + 1, 1), true))
    else if rows[command].deleted then Err(I.Deleted)
    else if !SameDispositionCommand(rows[command].value.descriptor, r.descriptor) then Err(I.CommandMismatch)
    else Ok((EntryOf(rows[command]), false))
  }

  /** The same command again: it may differ in nothing but the two names it goes by. */
  predicate SameContent(winner: Descriptor, retry: Descriptor) {
    retry.(commandID := winner.commandID, runtimeCommandID := winner.runtimeCommandID) == winner
  }

  class DispositionStore {
    const validOpaque: Text -> bool
    const index: OrderedIndex<Record>

    predicate Valid() reads index { AllFiled(validOpaque, index.rows, index.lastOrder) }

    predicate Answered(before: Rows<Record>, command: Text, req: Request, now: Instant,
                       evidence: Result<Evidence, I.InboxError>, r: Answer)
      reads index
    {
      (r, index.rows) == Transitioned(validOpaque, before, command, req, now, evidence)
    }

    constructor (validOpaque: Text -> bool)
      ensures Valid() && fresh(index) && index.rows == map[] && this.validOpaque == validOpaque
    {
      this.validOpaque := validOpaque;
      index := new OrderedIndex<Record>();
    }

    method AdmitDispositionCommand(r: Record) returns (answer: Answer)
      requires Valid() && r.state == I.Pending
      modifies index
      ensures Valid()
      ensures answer == if !ValidState(validOpaque, r) then Err(I.InvalidRequest)
                        else AdmissionAnswer(old(index.rows), old(index.lastOrder), r)
      ensures answer == Err(I.InvalidRequest) <==> !(r.claim.None? && r.attempt.None? && r.outcome.None?)
      ensures answer != Err(I.InvalidRequest) && r.descriptor.commandID in old(index.rows) ==>
                var row := old(index.rows)[r.descriptor.commandID];
                answer == if row.deleted then Err(I.Deleted)
                          else if SameContent(row.value.descriptor, r.descriptor) then Ok((EntryOf(row), false))
                          else Err(I.CommandMismatch)
      ensures if answer.Ok? && answer.value.1
              then index.rows == old(index.rows)[r.descriptor.commandID :=
                     Row(r, 1, Unranked, DispositionDue(r), old(index.lastOrder) + 1, false)]
              else index.rows == old(index.rows)
    {
      if !ValidState(validOpaque, r) {
        return Err(I.InvalidRequest);
      }
      var row, created := index.Create(r.descriptor.commandID, r, Unranked, DispositionDue(r));
      if row.deleted {
        return Err(I.Deleted);
      }
      if !SameDispositionCommand(row.value.descriptor, r.descriptor) {
        return Err(I.CommandMismatch);
      }
      answer := Ok((EntryOf(row), created));
    }

    /** The row a transition decides on, at the revision its caller expects. */
    method EntryAtRevision(command: Text, expectedRevision: nat) returns (r: Result<Row<Record>, I.InboxError>)
      ensures r == if command !in index.rows then Err(I.Missing)
                   else if index.rows[command].deleted then Err(I.Deleted)
                   else if index.rows[command].revision != expectedRevision then Err(I.Conflict(index.rows[command].revision))
                   else Ok(index.rows[command])
    {
      var row := index.Get(command);
      if row.None? {
        return Err(I.Missing);
      }
      if row.value.deleted {
        return Err(I.Deleted);
      }
      r := if row.value.revision != expectedRevision then Err(I.Conflict(row.value.revision)) else Ok(row.value);
    }

    method CommitTransition(command: Text, row: Row<Record>, next: Record) returns (r: Answer)
      requires command in index.rows && index.rows[command] == row && !row.deleted
      modifies index
      ensures index.lastOrder == old(index.lastOrder)
      ensures if ValidState(validOpaque, next)
              then r == Ok((EntryOf(Refiled(row, next)), true)) && index.rows == old(index.rows)[command := Refiled(row, next)]
              else r == Err(I.InvalidRequest) && index.rows == old(index.rows)
    {
      if !ValidState(validOpaque, next) {
        return Err(I.InvalidRequest);
      }
      var stored := index.Update(command, row.revision, next, Unranked, DispositionDue(next));
      r := Ok((EntryOf(stored.value), true));
    }

    method ClaimDispositionCommand(command: Text, expectedRevision: nat, residency: uint64, expiresAt: Instant, now: Instant)
      returns (r: Answer)
      requires Valid()
      modifies index
      ensures Valid() && index.lastOrder == old(index.lastOrder)
      ensures Answered(old(index.rows), command, ClaimIt(expectedRevision, residency, expiresAt), now, Err(I.NoEvidence), r)
      ensures r.Ok? && r.value.1 <==> Writable(validOpaque, old(index.rows), command, ClaimIt(expectedRevision, residency, expiresAt), now, Err(I.NoEvidence))
    {
      var claim := Claim(residency, expiresAt);
      TransitionKeepsRows(validOpaque, index.rows, index.lastOrder, command, ClaimIt(expectedRevision, residency, expiresAt), now, Err(I.NoEvidence));
      WritesExactlyWhen(validOpaque, index.rows, index.lastOrder, command, ClaimIt(expectedRevision, residency, expiresAt), now, Err(I.NoEvidence));
      if expectedRevision == 0 || !ValidClaim(claim) || !BoundedExpiry(expiresAt, now, I.MAX_COMMAND_CLAIM_TTL) {
        return Err(I.InvalidRequest);
      }
      var current := EntryAtRevision(command, expectedRevision);
      if current.Err? {
        return Err(current.error);
      }
      var record := current.value.value;
      if record.state.Terminal() {
        return Err(I.AlreadyTerminal);
      }
      if record.attempt.Some? {
        return Err(I.WrongState);
      }
      if residency < Mark(record) {
        return Err(I.Superseded(Mark(record)));
      }
      var live := ClaimLive(record, now);
      if live && record.claim.value == claim {
        return Ok((EntryOf(current.value), false));
      }
      if !(now < record.applyDeadline) {
        return Err(I.PastDeadline);
      }
      if live && record.claim.value.residencyEpoch == residency {
        return Err(I.ClaimHeld);
      }
      r := CommitTransition(command, current.value, record.(state := I.Claimed, claim := Some(claim)));
    }

    method BeginDispositionAttempt(command: Text, expectedRevision: nat, attempt: Attempt, now: Instant) returns (r: Answer)
      requires Valid()
      modifies index
      ensures Valid() && index.lastOrder == old(index.lastOrder)
      ensures Answered(old(index.rows), command, BeginAttempt(expectedRevision, attempt), now, Err(I.NoEvidence), r)
      ensures r.Ok? && r.value.1 <==> Writable(validOpaque, old(index.rows), command, BeginAttempt(expectedRevision, attempt), now, Err(I.NoEvidence))
    {
      TransitionKeepsRows(validOpaque, index.rows, index.lastOrder, command, BeginAttempt(expectedRevision, attempt), now, Err(I.NoEvidence));
      WritesExactlyWhen(validOpaque, index.rows, index.lastOrder, command, BeginAttempt(expectedRevision, attempt), now, Err(I.NoEvidence));
      if expectedRevision == 0 || !ValidAttempt(validOpaque, attempt) {
        return Err(I.InvalidRequest);
      }
      var current := EntryAtRevision(command, expectedRevision);
      if current.Err? {
        return Err(current.error);
      }
      var record := current.value.value;
      if record.state.Terminal() {
        return Err(I.AlreadyTerminal);
      }
      if record.state != I.Claimed || record.claim.None? {
        return Err(I.WrongState);
      }
      if attempt.residencyEpoch < Mark(record) {
        return Err(I.Superseded(Mark(record)));
      }
      if attempt.residencyEpoch != Mark(record) || !(now < record.claim.value.expiresAt) {
        return Err(I.ClaimLost);
      }
      r := CommitTransition(command, current.value, record.(state := I.Applying, attempt := Some(attempt)));
    }

    /** The reader is asked only once nothing else can refuse. */
    method SettleDispositionCommand(command: Text, expectedRevision: nat, residency: uint64, now: Instant,
                                    evidence: Result<Evidence, I.InboxError>)
      returns (r: Answer)
      requires Valid()
      modifies index
      ensures Valid() && index.lastOrder == old(index.lastOrder)
      ensures Answered(old(index.rows), command, Settle(expectedRevision, residency), now, evidence, r)
      ensures r.Ok? && r.value.1 <==> Writable(validOpaque, old(index.rows), command, Settle(expectedRevision, residency), now, evidence)
    {
      TransitionKeepsRows(validOpaque, index.rows, index.lastOrder, command, Settle(expectedRevision, residency), now, evidence);
      WritesExactlyWhen(validOpaque, index.rows, index.lastOrder, command, Settle(expectedRevision, residency), now, evidence);
      if expectedRevision == 0 || residency == 0 {
        return Err(I.InvalidRequest);
      }
      var current := EntryAtRevision(command, expectedRevision);
      if current.Err? {
        return Err(current.error);
      }
      var record := current.value.value;
      if record.state.Terminal() {
        return Ok((EntryOf(current.value), false));
      }
      if record.state != I.Applying || record.attempt.None? || record.claim.None? {
        return Err(I.WrongState);
      }
      if residency < Mark(record) {
        return Err(I.Superseded(Mark(record)));
      }
      if evidence.Err? {
        return Err(evidence.error);
      }
      var outcome := VerifiedOutcome(record.attempt.value, evidence.value, residency, now);
      if outcome.Err? {
        return Err(outcome.error);
      }
      r := CommitTransition(command, current.value, record.(state := TerminalState(outcome.value.kind), outcome := Some(outcome.value)));
    }

    method RejectDispositionCommand(command: Text, expectedRevision: nat, residency: uint64, now: Instant) returns (r: Answer)
      requires Valid()
      modifies index
      ensures Valid() && index.lastOrder == old(index.lastOrder)
      ensures Answered(old(index.rows), command, RejectIt(expectedRevision, residency), now, Err(I.NoEvidence), r)
      ensures r.Ok? && r.value.1 <==> Writable(validOpaque, old(index.rows), command, RejectIt(expectedRevision, residency), now, Err(I.NoEvidence))
    {
      TransitionKeepsRows(validOpaque, index.rows, index.lastOrder, command, RejectIt(expectedRevision, residency), now, Err(I.NoEvidence));
      WritesExactlyWhen(validOpaque, index.rows, index.lastOrder, command, RejectIt(expectedRevision, residency), now, Err(I.NoEvidence));
      if expectedRevision == 0 {
        return Err(I.InvalidRequest);
      }
      var current := EntryAtRevision(command, expectedRevision);
      if current.Err? {
        return Err(current.error);
      }
      var record := current.value.value;
      if record.state.Terminal() {
        if record.state == I.Rejected && record.attempt.None? {
          return Ok((EntryOf(current.value), false));
        }
        return Err(I.AlreadyTerminal);
      }
      if record.attempt.Some? {
        return Err(I.WrongState);
      }
      if residency != 0 && residency < Mark(record) {
        return Err(I.Superseded(Mark(record)));
      }
      if ClaimLive(record, now) && record.claim.value.residencyEpoch != residency {
        return Err(I.ClaimHeld);
      }
      r := CommitTransition(command, current.value, record.(state := I.Rejected));
    }
  }
}
