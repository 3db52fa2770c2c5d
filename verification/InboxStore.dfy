/** The command inbox over one ordered index: admission, the four transitions,
    and what every sequence of them keeps. What may run between a transition's
    read and its write is the subject of RecoveryProtocol; here each call is one
    read, one decision and one compare-and-swap. */
module InboxStore {
  import opened Wrappers
  import opened Bytes
  import opened Clock
  import opened Storage
  import opened Envelopes
  import opened Recovery
  import opened Inbox

  /** A stored command as callers see it. */
  datatype InboxEntry = InboxEntry(record: InboxRecord, acceptedOrder: nat, revision: nat)

  function EntryOf(row: Row<InboxRecord>): InboxEntry { InboxEntry(row.value, row.order, row.revision) }

  /** The session's journal as one transition meets it. */
  datatype JournalView = JournalView(tip: nat, stream: seq<Stored>, decode: Decoder) {
    /** The provider's stream is exactly this journal's. */
    ghost predicate Shows(journal: seq<Envelope>) { |journal| == tip && Delivers(stream, journal, decode) }

    /** The walk cannot meet its own bound. */
    ghost predicate Fails() { tip != 0 && !ReachesTip(stream, tip, decode) }
  }

  // ---- what the stored rows are ----------------------------------------------------

  /** A live row is filed exactly where its own record says. */
  predicate Filed(rules: InboxRules, key: Text, row: Row<InboxRecord>) {
    && row.revision > 0 && row.order > 0
    && (!row.deleted ==>
          && ValidRecord(rules, row.value) && row.value.commandID == key
          && row.rank == Unranked && row.due == InboxDue(row.value))
  }

  predicate AllFiled(rules: InboxRules, rows: Rows<InboxRecord>, lastOrder: nat) {
    forall k :: k in rows ==> Filed(rules, k, rows[k]) && rows[k].order <= lastOrder
  }

  predicate RowMovesOn(row: Row<InboxRecord>, next: Row<InboxRecord>) {
    && next.order == row.order && row.revision <= next.revision
    && SameAdmission(row.value, next.value)
    && StatusRank(row.value.state) <= StatusRank(next.value.state)
    && row.value.claim.leaseEpoch <= next.value.claim.leaseEpoch
    && (row.value.state.Terminal() ==> next.value == row.value)
    && (row.deleted ==> next.deleted)
  }

  /** Rows are added, or moved on: identity, order and admission are for good. */
  predicate RowsMoveOn(rows: Rows<InboxRecord>, next: Rows<InboxRecord>) {
    forall k :: k in rows ==> k in next && RowMovesOn(rows[k], next[k])
  }

  lemma RowsMoveOnTransitively(rows: Rows<InboxRecord>, next: Rows<InboxRecord>, last: Rows<InboxRecord>)
    requires RowsMoveOn(rows, next) && RowsMoveOn(next, last)
    ensures RowsMoveOn(rows, last)
  {
    forall k | k in rows ensures k in last && RowMovesOn(rows[k], last[k]) {
      assert k in next;
    }
  }

  // ---- admission ---------------------------------------------------------------------

  /** What an admission is answered, against the rows it meets. */
  function AdmissionAnswer(rows: Rows<InboxRecord>, lastOrder: nat, r: InboxRecord): Result<(InboxEntry, bool), InboxError> {
    if r.commandID !in rows then Ok((InboxEntry(r, lastOrder + 1, 1), true))
    else
      var row := rows[r.commandID];
      if row.deleted then Err(Deleted)
      else if !SameCommandAs(row.value, r) then Err(CommandMismatch)
      else Ok((EntryOf(row), false))
  }

  lemma AdmissionLeavesFiled(rules: InboxRules, rows: Rows<InboxRecord>, lastOrder: nat, r: InboxRecord)
    requires AllFiled(rules, rows, lastOrder) && ValidRecord(rules, r)
    ensures RowsMoveOn(rows, rows)
    ensures r.commandID !in rows ==>
              var next := rows[r.commandID := Row(r, 1, Unranked, InboxDue(r), lastOrder + 1, false)];
              AllFiled(rules, next, lastOrder + 1) && RowsMoveOn(rows, next)
  {
  }

  /** What a new command must be, by its own members. */
  predicate Admissible(rules: InboxRules, r: InboxRecord) {
    && rules.validID(r.tenantID) && rules.validID(r.sessionID) && rules.validID(r.commandID)
    && rules.validOpaque(r.runtimeCommandID) && rules.validOpaque(r.kind)
    && |r.payload| <= 65_536 && (r.payload == [] || r.payloadRef == []) && (r.payloadRef == [] || rules.validReference(r.payloadRef))
    && Rankable(r.acceptedAt) && Rankable(r.applyDeadline)
  }

  // ---- the store -------------------------------------------------------------------------

  /** What a decision that needs no scan is made with, or the scan's own answer. */
  function AppOf(scan: Result<CommandApplication, JournalError>): CommandApplication {
    if scan.Ok? then scan.value else CommandApplication(NOTHING_FOUND, 0, 0)
  }

  /** The transition's outcome against one state of the rows and one scan reply. */
  function Transitioned(rules: InboxRules, rows: Rows<InboxRecord>, command: Text, req: Request, now: Instant,
                        scan: Result<CommandApplication, JournalError>): (next: Result<Rows<InboxRecord>, InboxError>)
    ensures next.Ok? ==> command in next.value
  {
    if !ValidRequest(rules, req, now) then Err(InvalidRequest)
    else if command !in rows then Err(Missing)
    else if rows[command].deleted then Err(InboxError.Deleted)
    else
      var row := rows[command];
      var stale := Current(row.value, row.revision, req);
      if stale.Some? then Err(stale.value)
      else if NeedsScan(row.value, req, now) && scan.Err? then Err(Journal(scan.error))
      else
        var decided := Decide(row.value, row.revision, req, now, AppOf(scan));
        if decided.Err? then Err(decided.error)
        else
          var moved := Moved(row.value, decided.value);
          Ok(rows[command := row.(value := moved, revision := row.revision + 1, rank := Unranked, due := InboxDue(moved))])
  }

  lemma TransitionKeepsRows(rules: InboxRules, rows: Rows<InboxRecord>, lastOrder: nat, command: Text, req: Request,
                            now: Instant, scan: Result<CommandApplication, JournalError>)
    requires AllFiled(rules, rows, lastOrder) && Transitioned(rules, rows, command, req, now, scan).Ok?
    ensures var next := Transitioned(rules, rows, command, req, now, scan).value;
            && AllFiled(rules, next, lastOrder) && RowsMoveOn(rows, next)
            && next.Keys == rows.Keys && Edge(rows[command].value, next[command].value, req, now, AppOf(scan))
            && (forall k :: k in rows && k != command ==> next[k] == rows[k])
  {
    var row := rows[command];
    DecidedExactlyWhenAllowed(rules, row.value, row.revision, req, now, AppOf(scan));
  }

  /** The part of it a caller needs after every transition. */
  lemma TransitionLeavesFiled(rules: InboxRules, rows: Rows<InboxRecord>, lastOrder: nat, command: Text, req: Request,
                              now: Instant, scan: Result<CommandApplication, JournalError>)
    requires AllFiled(rules, rows, lastOrder)
    ensures RowsMoveOn(rows, rows)
    ensures var next := Transitioned(rules, rows, command, req, now, scan);
            next.Ok? ==> AllFiled(rules, next.value, lastOrder) && RowsMoveOn(rows, next.value)
  {
    if Transitioned(rules, rows, command, req, now, scan).Ok? {
      TransitionKeepsRows(rules, rows, lastOrder, command, req, now, scan);
    }
  }

  // ---- when a transition is carried, and when it is refused ------------------------------

  /** A request the store will look at, by its own members. */
  predicate GoodRequest(rules: InboxRules, req: Request, now: Instant) {
    && req.expectedRevision >= 1
    && match req
       case Claim(_, epoch, expires) => epoch >= 1 && Rankable(expires) && now < expires <= now + 3_600_000_000_000
       case BeginApplying(_, epoch, expires) => epoch >= 1 && Rankable(expires) && now < expires <= now + 3_600_000_000_000
       case Complete(_, epoch, result) =>
         epoch >= 1 && rules.validID(result.eventID) && result.journalSeq >= 1 && Rankable(result.completedAt)
       case Reject(_, _, rejection) => rules.validRejection(rejection)
  }

  /** The row a request names is there, at the revision it names. */
  predicate Meets(rows: Rows<InboxRecord>, command: Text, req: Request) {
    command in rows && !rows[command].deleted && rows[command].revision == req.expectedRevision
  }

  /** What has to be read off the journal: every rejection, and a completion above the
      claim's own epoch. */
  predicate RestsOnJournal(r: InboxRecord, req: Request) {
    req.Reject? || (req.Complete? && r.claim.leaseEpoch < req.leaseEpoch)
  }

  predicate Carried(rules: InboxRules, rows: Rows<InboxRecord>, command: Text, req: Request, now: Instant,
                    scan: Result<CommandApplication, JournalError>) {
    && GoodRequest(rules, req, now) && Meets(rows, command, req)
    && (RestsOnJournal(rows[command].value, req) ==> scan.Ok?)
    && Allowed(rows[command].value, req, now, AppOf(scan))
  }

  lemma GoodRequestsAreValid(rules: InboxRules, req: Request, now: Instant)
    ensures GoodRequest(rules, req, now) <==> ValidRequest(rules, req, now)
  {
  }

  /** A transition goes through exactly when its request is a good one, meets its row, is
      allowed on it, and had the journal's answer where it rests on one; what it leaves is
      the record asked for and nothing else changed. A rejection is stored only on a scan
      that answered and proved no effect. */
  lemma CarriedExactlyWhen(rules: InboxRules, rows: Rows<InboxRecord>, lastOrder: nat, command: Text, req: Request, now: Instant,
                           scan: Result<CommandApplication, JournalError>)
    requires AllFiled(rules, rows, lastOrder)
    ensures var next := Transitioned(rules, rows, command, req, now, scan);
            && (next.Ok? <==> Carried(rules, rows, command, req, now, scan))
            && (next.Ok? ==> Becomes(rows, next.value, command, req))
            && (next.Ok? && req.Reject? ==> scan.Ok? && scan.value.ProvesNoEffect())
  {
    GoodRequestsAreValid(rules, req, now);
    if command in rows && !rows[command].deleted && GoodRequest(rules, req, now) {
      var row := rows[command];
      DecidedExactlyWhenAllowed(rules, row.value, row.revision, req, now, AppOf(scan));
      if req.Reject? { AuthorityMeaning(row.value, req, now); }
    }
  }

  lemma ScanIsNeededExactlyWhen(r: InboxRecord, req: Request, now: Instant)
    ensures !Finished(r) ==> (NeedsScan(r, req, now) <==> AsksJournal(r, req, now))
  {
    if req.Reject? { AuthorityMeaning(r, req, now); }
  }

  /** Which refusal a caller is given: a bad request, no row, a tombstone, and a scan that
      did not answer where the transition rested on it, which is never passed over; past
      those, the record's own. */
  lemma RefusalsAreToldApart(rules: InboxRules, rows: Rows<InboxRecord>, lastOrder: nat, command: Text, req: Request, now: Instant,
                             scan: Result<CommandApplication, JournalError>, e: InboxError)
    requires AllFiled(rules, rows, lastOrder)
    ensures var next := Transitioned(rules, rows, command, req, now, scan);
            if !GoodRequest(rules, req, now) then next == Err(InvalidRequest)
            else if command !in rows then next == Err(Missing)
            else if rows[command].deleted then next == Err(InboxError.Deleted)
            else if Meets(rows, command, req) && scan.Err? && AsksJournal(rows[command].value, req, now) then next == Err(Journal(scan.error))
            else next == Err(e) <==> RefusedFor(e, rows[command].value, rows[command].revision, req, now, AppOf(scan))
  {
    GoodRequestsAreValid(rules, req, now);
    if command in rows && !rows[command].deleted && ValidRequest(rules, req, now) {
      var row := rows[command];
      ScanIsNeededExactlyWhen(row.value, req, now);
      RefusedExactlyWhen(rules, row.value, row.revision, req, now, AppOf(scan), e);
      assert Current(row.value, row.revision, req).Some? <==> row.revision != req.expectedRevision || Finished(row.value);
    }
  }

  /** Nothing but the journal is left to refuse it. */
  predicate AsksJournal(r: InboxRecord, req: Request, now: Instant) {
    && !Finished(r)
    && if req.Reject? then MayReject(r, req.leaseEpoch, now)
       else req.Complete? && r.state == Applying && r.claim.leaseEpoch < req.leaseEpoch
  }

  /** The row as the request asks for it, one revision on, due by its own bytes. */
  function NextRow(row: Row<InboxRecord>, req: Request): Row<InboxRecord> {
    Row(Asked(row.value, req), row.revision + 1, Unranked, InboxDue(Asked(row.value, req)), row.order, false)
  }

  predicate Becomes(rows: Rows<InboxRecord>, next: Rows<InboxRecord>, command: Text, req: Request) {
    command in rows && next == rows[command := NextRow(rows[command], req)]
  }

  /** What a rejection needs of the row and of the journal's own records. */
  ghost predicate RejectableIn(rules: InboxRules, rows: Rows<InboxRecord>, command: Text, req: Request, now: Instant,
                               journal: seq<Envelope>, parse: Text -> Uuid16)
    requires req.Reject?
  {
    && GoodRequest(rules, req, now) && Meets(rows, command, req)
    && var r := rows[command].value;
    && !Finished(r) && MayReject(r, req.leaseEpoch, now)
    && EveryPrefixSuperseded(journal, CommandKey(r.commandID, parse(r.runtimeCommandID), r.kind))
    && (r.state == Applying && !Holding(r, now) ==> FencedAbove(journal, r.claim.leaseEpoch))
  }

  /** What a completion needs: under the claim's own epoch nothing of the journal, and
      under a higher one that the last effect there is be the one it names. */
  ghost predicate CompletableIn(rules: InboxRules, rows: Rows<InboxRecord>, command: Text, req: Request, now: Instant,
                                journal: seq<Envelope>, parse: Text -> Uuid16)
    requires req.Complete?
  {
    && GoodRequest(rules, req, now) && Meets(rows, command, req)
    && var r := rows[command].value;
    && r.state == Applying && r.claim.leaseEpoch <= req.leaseEpoch
    && (r.claim.leaseEpoch < req.leaseEpoch ==>
          NamesLastEffect(journal, CommandKey(r.commandID, parse(r.runtimeCommandID), r.kind), req.result))
  }

  ghost predicate NamesLastEffect(journal: seq<Envelope>, key: CommandKey, result: CommandResult) {
    && !AnyMismatch(journal, key) && result.journalSeq >= 2 && LastEffectAt(journal, key, result.journalSeq - 2)
    && journal[result.journalSeq - 1].eventID == result.eventID
  }

  /** Over the journal itself: a rejection succeeds exactly when every prefix the command
      has there ran into a higher fence, and the rejecter may. */
  lemma RejectsExactlyWhen(rules: InboxRules, rows: Rows<InboxRecord>, lastOrder: nat, command: Text, req: Request, now: Instant,
                           journal: seq<Envelope>, parse: Text -> Uuid16)
    requires AllFiled(rules, rows, lastOrder) && req.Reject?
    ensures Transitioned(rules, rows, command, req, now, Evidence(rows, command, journal, parse)).Ok? <==>
              RejectableIn(rules, rows, command, req, now, journal, parse)
  {
    CarriedExactlyWhen(rules, rows, lastOrder, command, req, now, Evidence(rows, command, journal, parse));
    if command in rows {
      ScanDecidesExactly(journal, KeyOf(rows[command].value, parse));
      ScanAnswers(journal, KeyOf(rows[command].value, parse), rows[command].value.claim.leaseEpoch, [], 0);
    }
  }

  /** And a completion exactly when its effect is the journal's last, or its epoch the
      claim's own. */
  lemma CompletesExactlyWhen(rules: InboxRules, rows: Rows<InboxRecord>, lastOrder: nat, command: Text, req: Request, now: Instant,
                             journal: seq<Envelope>, parse: Text -> Uuid16)
    requires AllFiled(rules, rows, lastOrder) && req.Complete?
    ensures Transitioned(rules, rows, command, req, now, Evidence(rows, command, journal, parse)).Ok? <==>
              CompletableIn(rules, rows, command, req, now, journal, parse)
  {
    CarriedExactlyWhen(rules, rows, lastOrder, command, req, now, Evidence(rows, command, journal, parse));
    if command in rows {
      ScanAnswers(journal, KeyOf(rows[command].value, parse), 0, req.result.eventID, req.result.journalSeq);
    }
  }

  /** What a scan of exactly `journal` tells a transition of `command`. */
  function Evidence(rows: Rows<InboxRecord>, command: Text, journal: seq<Envelope>, parse: Text -> Uuid16)
    : Result<CommandApplication, JournalError>
  {
    if command in rows then Ok(Correlate(journal, KeyOf(rows[command].value, parse))) else Err(Integrity)
  }

  const NO_EVIDENCE: Result<CommandApplication, JournalError> := Err(Integrity)

  // ---- any sequence of calls ------------------------------------------------------------

  /** One call on the store: an admission, or a transition of one command with the
      clock reading and the scan reply it met. */
  datatype Call =
    | Admit(r: InboxRecord)
    | Transit(command: Text, req: Request, now: Instant, scan: Result<CommandApplication, JournalError>)

  datatype Index = Index(rows: Rows<InboxRecord>, lastOrder: nat)

  function AfterCall(rules: InboxRules, s: Index, call: Call): Index {
    match call
    case Admit(r) =>
      if !ValidRecord(rules, r) || r.commandID in s.rows then s
      else Index(s.rows[r.commandID := Row(r, 1, Unranked, InboxDue(r), s.lastOrder + 1, false)], s.lastOrder + 1)
    case Transit(command, req, now, scan) =>
      var next := Transitioned(rules, s.rows, command, req, now, scan);
      if next.Ok? then s.(rows := next.value) else s
  }

  function AfterCalls(rules: InboxRules, s: Index, calls: seq<Call>): Index {
    if calls == [] then s else AfterCall(rules, AfterCalls(rules, s, calls[..|calls| - 1]), calls[|calls| - 1])
  }

  /** Whatever is called, in whatever order: every row stays filed by its own bytes,
      and every row only moves on. */
  lemma {:induction false} CallsMoveRowsOn(rules: InboxRules, s: Index, calls: seq<Call>)
    requires AllFiled(rules, s.rows, s.lastOrder)
    ensures var t := AfterCalls(rules, s, calls);
            AllFiled(rules, t.rows, t.lastOrder) && s.lastOrder <= t.lastOrder && RowsMoveOn(s.rows, t.rows)
  {
    if calls != [] {
      var mid, call := AfterCalls(rules, s, calls[..|calls| - 1]), calls[|calls| - 1];
      CallsMoveRowsOn(rules, s, calls[..|calls| - 1]);
      match call {
        case Admit(r) => if ValidRecord(rules, r) { AdmissionLeavesFiled(rules, mid.rows, mid.lastOrder, r); }
        case Transit(command, req, now, scan) => TransitionLeavesFiled(rules, mid.rows, mid.lastOrder, command, req, now, scan);
      }
      RowsMoveOnTransitively(s.rows, mid.rows, AfterCall(rules, mid, call).rows);
    }
  }

  /** Any later retry with the accepted content, whatever runtime identity and
      instants it proposes, is answered with the first winner's identity and order
      for as long as the row is live; different content is refused for good. */
  lemma RetryIsAnsweredByTheWinner(rules: InboxRules, rows: Rows<InboxRecord>, lastOrder: nat, first: InboxRecord,
                                   later: Rows<InboxRecord>, laterOrder: nat, retry: InboxRecord)
    requires AdmissionAnswer(rows, lastOrder, first).Ok? && retry.commandID == first.commandID
    requires first.commandID !in rows
    requires RowsMoveOn(rows[first.commandID := Row(first, 1, Unranked, InboxDue(first), lastOrder + 1, false)], later)
    ensures var answer := AdmissionAnswer(later, laterOrder, retry);
            if later[first.commandID].deleted then answer == Err(Deleted)
            else if SameContent(first, retry) then
              && answer.Ok? && !answer.value.1
              && answer.value.0.record.runtimeCommandID == first.runtimeCommandID
              && answer.value.0.acceptedOrder == AdmissionAnswer(rows, lastOrder, first).value.0.acceptedOrder
            else answer == Err(CommandMismatch)
  {
    assert RowMovesOn(Row(first, 1, Unranked, InboxDue(first), lastOrder + 1, false), later[first.commandID]);
  }

  /** And so over any sequence of calls: from its own admission on, a command's every
      retry is answered by the first winner. */
  lemma RetryAfterAnyCalls(rules: InboxRules, s: Index, first: InboxRecord, calls: seq<Call>, retry: InboxRecord)
    requires AllFiled(rules, s.rows, s.lastOrder) && ValidRecord(rules, first) && first.commandID !in s.rows
    requires retry.commandID == first.commandID
    ensures var t := AfterCalls(rules, AfterCall(rules, s, Admit(first)), calls);
            && first.commandID in t.rows
            && var answer := AdmissionAnswer(t.rows, t.lastOrder, retry);
            if t.rows[first.commandID].deleted then answer == Err(Deleted)
            else if SameContent(first, retry) then
              && answer.Ok? && !answer.value.1
              && answer.value.0.record.runtimeCommandID == first.runtimeCommandID
              && answer.value.0.acceptedOrder == s.lastOrder + 1
            else answer == Err(CommandMismatch)
  {
    var admitted := AfterCall(rules, s, Admit(first));
    AdmissionLeavesFiled(rules, s.rows, s.lastOrder, first);
    CallsMoveRowsOn(rules, admitted, calls);
    var t := AfterCalls(rules, admitted, calls);
    RetryIsAnsweredByTheWinner(rules, s.rows, s.lastOrder, first, t.rows, t.lastOrder, retry);
  }

  class CommandStore {
    const rules: InboxRules
    const parse: Text -> Uuid16
    const index: OrderedIndex<InboxRecord>

    predicate Valid() reads index { AllFiled(rules, index.rows, index.lastOrder) }

    /** The call did what `Transitioned` says, given this scan reply. */
    predicate Settled(before: Rows<InboxRecord>, command: Text, req: Request, now: Instant,
                      scan: Result<CommandApplication, JournalError>, r: Result<InboxEntry, InboxError>)
      reads index
    {
      match Transitioned(rules, before, command, req, now, scan)
      case Ok(next) => index.rows == next && r == Ok(EntryOf(next[command]))
      case Err(e) => index.rows == before && r == Err(e)
    }

    /** The call did what `Transitioned` says on the evidence of the journal the
        view shows, or without any when the walk cannot complete. */
    ghost predicate SettledOnEvidence(before: Rows<InboxRecord>, command: Text, req: Request, now: Instant,
                                      view: JournalView, r: Result<InboxEntry, InboxError>)
      reads index
    {
      && (view.Fails() ==> Settled(before, command, req, now, NO_EVIDENCE, r))
      && forall journal :: view.Shows(journal) ==> Settled(before, command, req, now, Evidence(before, command, journal, parse), r)
    }

    constructor (rules: InboxRules, parse: Text -> Uuid16)
      ensures Valid() && fresh(index) && index.rows == map[] && this.rules == rules
    {
      this.rules, this.parse := rules, parse;
      index := new OrderedIndex<InboxRecord>();
    }

    /** One command, once: a duplicate is answered with what the winner stored. */
    method AdmitCommand(r: InboxRecord) returns (answer: Result<(InboxEntry, bool), InboxError>)
      requires Valid() && r.state == Pending && r.claim == NO_CLAIM && r.result == NO_RESULT && r.rejection == None
      modifies index
      ensures Valid() && RowsMoveOn(old(index.rows), index.rows)
      ensures answer == if !ValidRecord(rules, r) then Err(InvalidRequest)
                        else AdmissionAnswer(old(index.rows), old(index.lastOrder), r)
      ensures answer == Err(InvalidRequest) <==> !Admissible(rules, r)
      ensures Admissible(rules, r) && r.commandID in old(index.rows) ==>
                var row := old(index.rows)[r.commandID];
                answer == if row.deleted then Err(InboxError.Deleted)
                          else if SameContent(row.value, r) then Ok((EntryOf(row), false)) else Err(CommandMismatch)
      ensures if answer.Ok? && answer.value.1
              then index.rows == old(index.rows)[r.commandID := Row(r, 1, Unranked, InboxDue(r), old(index.lastOrder) + 1, false)]
              else index.rows == old(index.rows)
    {
      if !ValidRecord(rules, r) {
        return Err(InvalidRequest);
      }
      AdmissionLeavesFiled(rules, index.rows, index.lastOrder, r);
      var row, created := index.Create(r.commandID, r, Unranked, InboxDue(r));
      if row.deleted {
        return Err(Deleted);
      }
      if !created && !SameCommandAs(row.value, r) {
        return Err(CommandMismatch);
      }
      answer := Ok((EntryOf(row), created));
    }

    /** The record a transition decides on, at the revision its caller expects. */
    method CurrentInboxEntry(command: Text, req: Request) returns (r: Result<Row<InboxRecord>, InboxError>)
      ensures command !in index.rows ==> r == Err(Missing)
      ensures command in index.rows && index.rows[command].deleted ==> r == Err(Deleted)
      ensures command in index.rows && !index.rows[command].deleted ==>
                var row := index.rows[command];
                var stale := Current(row.value, row.revision, req);
                r == if stale.Some? then Err(stale.value) else Ok(row)
    {
      var row := index.Get(command);
      if row.None? {
        return Err(Missing);
      }
      if row.value.deleted {
        return Err(Deleted);
      }
      var stale := Current(row.value.value, row.value.revision, req);
      r := if stale.Some? then Err(stale.value) else Ok(row.value);
    }

    /** The one writer every transition shares: bytes and due state move together,
        onto the revision that was read. */
    method CommitInboxTransition(command: Text, row: Row<InboxRecord>, t: Transition) returns (r: Result<InboxEntry, InboxError>)
      requires command in index.rows && index.rows[command] == row && !row.deleted
      modifies index
      ensures index.lastOrder == old(index.lastOrder)
      ensures index.rows == old(index.rows)[command := row.(value := Moved(row.value, t), revision := row.revision + 1,
                                                            rank := Unranked, due := InboxDue(Moved(row.value, t)))]
      ensures r == Ok(EntryOf(index.rows[command]))
    {
      var moved := Moved(row.value, t);
      var swapped := index.Update(command, row.revision, moved, Unranked, InboxDue(moved));
      r := Ok(EntryOf(swapped.value));
    }

    /** A claim's refusals, in order. None exactly when the command is not applying, the
        epoch is not superseded, the deadline is ahead, and a live claim on it is of a
        lower epoch. */
    method RefuseClaim(r: InboxRecord, leaseEpoch: uint64, now: Instant) returns (refused: Option<InboxError>)
      ensures refused.None? <==>
                && r.state != Applying && r.claim.leaseEpoch <= leaseEpoch && now < r.applyDeadline
                && (ClaimLive(r, now) ==> r.claim.leaseEpoch < leaseEpoch)
      ensures forall req: Request :: req.Claim? && req.leaseEpoch == leaseEpoch && refused.Some? ==>
                DecideClaim(r, req, now) == Err(refused.value)
    {
      if r.state == Applying {
        return Some(WrongState);
      }
      if leaseEpoch < r.claim.leaseEpoch {
        return Some(Superseded(r.claim.leaseEpoch));
      }
      if !(now < r.applyDeadline) {
        return Some(PastDeadline);
      }
      if ClaimLive(r, now) && leaseEpoch == r.claim.leaseEpoch {
        return Some(ClaimHeld);
      }
      refused := None;
    }

    method ClaimCommand(command: Text, expectedRevision: nat, leaseEpoch: uint64, expiresAt: Instant, now: Instant)
      returns (r: Result<InboxEntry, InboxError>)
      requires Valid()
      modifies index
      ensures Valid() && index.lastOrder == old(index.lastOrder) && RowsMoveOn(old(index.rows), index.rows)
      ensures Settled(old(index.rows), command, Claim(expectedRevision, leaseEpoch, expiresAt), now, NO_EVIDENCE, r)
      ensures r.Ok? <==> Carried(rules, old(index.rows), command, Claim(expectedRevision, leaseEpoch, expiresAt), now, NO_EVIDENCE)
      ensures r.Ok? ==> Becomes(old(index.rows), index.rows, command, Claim(expectedRevision, leaseEpoch, expiresAt))
    {
      var req := Claim(expectedRevision, leaseEpoch, expiresAt);
      CarriedExactlyWhen(rules, index.rows, index.lastOrder, command, req, now, NO_EVIDENCE);
      if expectedRevision == 0 || leaseEpoch == 0 || !Rankable(expiresAt) || !BoundedExpiry(expiresAt, now, MAX_COMMAND_CLAIM_TTL) {
        return Err(InvalidRequest);
      }
      var current := CurrentInboxEntry(command, req);
      if current.Err? {
        return Err(current.error);
      }
      var row := current.value;
      var refused := RefuseClaim(row.value, leaseEpoch, now);
      if refused.Some? {
        return Err(refused.value);
      }
      TransitionLeavesFiled(rules, index.rows, index.lastOrder, command, req, now, NO_EVIDENCE);
      r := CommitInboxTransition(command, row, Transition(Claimed, CommandClaim(leaseEpoch, expiresAt), NO_RESULT, None));
    }

    method BeginApplyingCommand(command: Text, expectedRevision: nat, leaseEpoch: uint64, expiresAt: Instant, now: Instant)
      returns (r: Result<InboxEntry, InboxError>)
      requires Valid()
      modifies index
      ensures Valid() && index.lastOrder == old(index.lastOrder) && RowsMoveOn(old(index.rows), index.rows)
      ensures Settled(old(index.rows), command, BeginApplying(expectedRevision, leaseEpoch, expiresAt), now, NO_EVIDENCE, r)
      ensures r.Ok? <==> Carried(rules, old(index.rows), command, BeginApplying(expectedRevision, leaseEpoch, expiresAt), now, NO_EVIDENCE)
      ensures r.Ok? ==> Becomes(old(index.rows), index.rows, command, BeginApplying(expectedRevision, leaseEpoch, expiresAt))
    {
      var req := BeginApplying(expectedRevision, leaseEpoch, expiresAt);
      CarriedExactlyWhen(rules, index.rows, index.lastOrder, command, req, now, NO_EVIDENCE);
      if expectedRevision == 0 || leaseEpoch == 0 || !Rankable(expiresAt) || !BoundedExpiry(expiresAt, now, MAX_COMMAND_CLAIM_TTL) {
        return Err(InvalidRequest);
      }
      var current := CurrentInboxEntry(command, req);
      if current.Err? {
        return Err(current.error);
      }
      var row := current.value;
      if row.value.state != Claimed {
        return Err(WrongState);
      }
      if leaseEpoch < row.value.claim.leaseEpoch {
        return Err(Superseded(row.value.claim.leaseEpoch));
      }
      if leaseEpoch != row.value.claim.leaseEpoch || !ClaimLive(row.value, now) {
        return Err(ClaimLost);
      }
      TransitionLeavesFiled(rules, index.rows, index.lastOrder, command, req, now, NO_EVIDENCE);
      r := CommitInboxTransition(command, row, Transition(Applying, CommandClaim(leaseEpoch, expiresAt), NO_RESULT, None));
    }

    /** A settlement over this journal goes through exactly when it should. */
    ghost predicate SettledOver(rows: Rows<InboxRecord>, command: Text, req: Request, now: Instant, journal: seq<Envelope>) {
      var settles := Transitioned(rules, rows, command, req, now, Evidence(rows, command, journal, parse)).Ok?;
      && (req.Reject? ==> (settles <==> RejectableIn(rules, rows, command, req, now, journal, parse)))
      && (req.Complete? ==> (settles <==> CompletableIn(rules, rows, command, req, now, journal, parse)))
    }

    /** What either settlement comes to on each journal the view might show, and on none. */
    lemma OnAnyEvidence(command: Text, req: Request, now: Instant, view: JournalView)
      requires Valid()
      ensures var next := Transitioned(rules, index.rows, command, req, now, NO_EVIDENCE);
              && (next.Ok? && req.Complete? ==> index.rows[command].value.claim.leaseEpoch == req.leaseEpoch)
              && (req.Reject? ==> next.Err?)
      ensures forall journal :: view.Shows(journal) ==> SettledOver(index.rows, command, req, now, journal)
    {
      CarriedExactlyWhen(rules, index.rows, index.lastOrder, command, req, now, NO_EVIDENCE);
      forall journal | view.Shows(journal) ensures SettledOver(index.rows, command, req, now, journal) {
        if req.Reject? { RejectsExactlyWhen(rules, index.rows, index.lastOrder, command, req, now, journal, parse); }
        if req.Complete? { CompletesExactlyWhen(rules, index.rows, index.lastOrder, command, req, now, journal, parse); }
      }
    }

    method CompleteCommand(command: Text, expectedRevision: nat, leaseEpoch: uint64, result: CommandResult, now: Instant, view: JournalView)
      returns (r: Result<InboxEntry, InboxError>)
      requires Valid()
      modifies index
      ensures Valid() && index.lastOrder == old(index.lastOrder) && RowsMoveOn(old(index.rows), index.rows)
      ensures SettledOnEvidence(old(index.rows), command, Complete(expectedRevision, leaseEpoch, result), now, view, r)
      ensures r.Ok? ==> Becomes(old(index.rows), index.rows, command, Complete(expectedRevision, leaseEpoch, result))
      ensures view.Fails() && r.Ok? ==> old(index.rows)[command].value.claim.leaseEpoch == leaseEpoch
      ensures r.Err? ==> index.rows == old(index.rows)
      ensures forall journal :: view.Shows(journal) ==>
                (r.Ok? <==> CompletableIn(rules, old(index.rows), command, Complete(expectedRevision, leaseEpoch, result), now, journal, parse))
    {
      var req := Complete(expectedRevision, leaseEpoch, result);
      OnAnyEvidence(command, req, now, view);
      if expectedRevision == 0 || leaseEpoch == 0 || result.IsZero() || !ValidResult(rules, result) {
        return Err(InvalidRequest);
      }
      var current := CurrentInboxEntry(command, req);
      if current.Err? {
        return Err(current.error);
      }
      var row := current.value;
      if row.value.state != Applying {
        return Err(WrongState);
      }
      if leaseEpoch < row.value.claim.leaseEpoch {
        return Err(Superseded(row.value.claim.leaseEpoch));
      }
      if leaseEpoch == row.value.claim.leaseEpoch {
        r := SettleOnEvidence(command, row, req, now, NO_EVIDENCE);
        return;
      }
      var scan := ScanCommandApplication(KeyOf(row.value, parse), view.tip, view.stream, view.decode);
      r := SettleOnEvidence(command, row, req, now, scan);
    }

    /** The journal's reply, weighed: its own failure, not enough of it, or the
        settlement it admits. */
    method SettleOnEvidence(command: Text, row: Row<InboxRecord>, req: Request, now: Instant,
                            scan: Result<CommandApplication, JournalError>)
      returns (r: Result<InboxEntry, InboxError>)
      requires Valid() && command in index.rows && index.rows[command] == row && !row.deleted
      requires ValidRequest(rules, req, now) && Current(row.value, row.revision, req).None?
      requires if req.Reject? then RejectAuthority(row.value, req, now).None?
               else req.Complete? && row.value.state == Applying && row.value.claim.leaseEpoch <= req.leaseEpoch
      modifies index
      ensures Valid() && index.lastOrder == old(index.lastOrder) && RowsMoveOn(old(index.rows), index.rows)
      ensures Settled(old(index.rows), command, req, now, scan, r)
      ensures r.Ok? ==> Becomes(old(index.rows), index.rows, command, req)
    {
      CarriedExactlyWhen(rules, index.rows, index.lastOrder, command, req, now, scan);
      var claim := row.value.claim;
      if NeedsScan(row.value, req, now) {
        if scan.Err? {
          return Err(Journal(scan.error));
        }
        if req.Complete? && !scan.value.NamesEffect(req.result.eventID, req.result.journalSeq) {
          return Err(NoEvidence);
        }
        if req.Reject? && !scan.value.ProvesNoEffect() {
          return Err(NoEvidence);
        }
        if req.Reject? && Recovering(row.value, now) && !scan.value.Fences(claim.leaseEpoch) {
          return Err(NoEvidence);
        }
      }
      TransitionLeavesFiled(rules, index.rows, index.lastOrder, command, req, now, scan);
      r := CommitInboxTransition(command, row,
        if req.Complete? then Transition(Applied, claim, req.result, None)
        else Transition(Rejected, claim, NO_RESULT, Some(req.rejection)));
    }

    /** Who may reject, before the journal is consulted at all: under a live claim its
        holder alone; over a lapsed application a strictly higher epoch; otherwise
        anyone who names no epoch below the record's. */
    method AuthorizeRejection(r: InboxRecord, leaseEpoch: uint64, now: Instant) returns (refused: Option<InboxError>)
      ensures refused.None? <==> MayReject(r, leaseEpoch, now)
      ensures refused == Some(Superseded(r.claim.leaseEpoch)) <==> 0 < leaseEpoch < r.claim.leaseEpoch
      ensures refused == Some(ClaimHeld) ==> ClaimLive(r, now) && leaseEpoch != r.claim.leaseEpoch
      ensures refused == Some(ClaimLost) ==> Recovering(r, now) && leaseEpoch <= r.claim.leaseEpoch
      ensures refused.Some? ==> refused == Some(Superseded(r.claim.leaseEpoch)) || refused == Some(ClaimHeld) || refused == Some(ClaimLost)
    {
      if leaseEpoch != 0 && leaseEpoch < r.claim.leaseEpoch {
        return Some(Superseded(r.claim.leaseEpoch));
      }
      if ClaimLive(r, now) {
        if leaseEpoch != r.claim.leaseEpoch {
          return Some(ClaimHeld);
        }
      } else if r.state == Applying {
        if leaseEpoch <= r.claim.leaseEpoch {
          return Some(ClaimLost);
        }
      }
      refused := None;
    }

    method RejectCommand(command: Text, expectedRevision: nat, leaseEpoch: uint64, rejection: Text, now: Instant, view: JournalView)
      returns (r: Result<InboxEntry, InboxError>)
      requires Valid()
      modifies index
      ensures Valid() && index.lastOrder == old(index.lastOrder) && RowsMoveOn(old(index.rows), index.rows)
      ensures SettledOnEvidence(old(index.rows), command, Reject(expectedRevision, leaseEpoch, rejection), now, view, r)
      ensures r.Ok? ==> Becomes(old(index.rows), index.rows, command, Reject(expectedRevision, leaseEpoch, rejection))
      ensures view.Fails() ==> r.Err?
      ensures r.Err? ==> index.rows == old(index.rows)
      ensures r.Ok? ==>
                exists app: CommandApplication ::
                  app.ProvesNoEffect() && Settled(old(index.rows), command, Reject(expectedRevision, leaseEpoch, rejection), now, Ok(app), r)
      ensures forall journal :: view.Shows(journal) ==>
                (r.Ok? <==> RejectableIn(rules, old(index.rows), command, Reject(expectedRevision, leaseEpoch, rejection), now, journal, parse))
    {
      var req := Reject(expectedRevision, leaseEpoch, rejection);
      OnAnyEvidence(command, req, now, view);
      if expectedRevision == 0 || !rules.validRejection(rejection) {
        return Err(InvalidRequest);
      }
      var current := CurrentInboxEntry(command, req);
      if current.Err? {
        return Err(current.error);
      }
      var row := current.value;
      var refused := AuthorizeRejection(row.value, leaseEpoch, now);
      AuthorityMeaning(row.value, req, now);
      if refused.Some? {
        return Err(refused.value);
      }
      var scan := ScanCommandApplication(KeyOf(row.value, parse), view.tip, view.stream, view.decode);
      r := SettleOnEvidence(command, row, req, now, scan);
    }
  }
}
