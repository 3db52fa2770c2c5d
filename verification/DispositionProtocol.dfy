/** Claimers, attempters, rejecters and settlers on one disposition command, with
    the record's read, the journal search and the compare-and-swap as separate
    steps, and the journal growing between any two of them. */
module DispositionProtocol {
  import opened Wrappers
  import opened Bytes
  import opened Clock
  import opened Envelopes
  import opened Dispositions
  import I = Inbox

  datatype World = World(validOpaque: Text -> bool, parse: Text -> Uuid16)

  datatype Row = Row(record: Record, revision: nat)

  /** `HasSearched` carries what one search of the journal as it then was returned. */
  datatype Stage = Started | HasRead(row: Row) | HasSearched(row: Row, tip: nat, evidence: Result<Evidence, I.InboxError>)

  datatype Op = Op(request: Request, now: Instant, stage: Stage)

  datatype State = State(row: Option<Row>, issued: set<uint64>, journal: seq<Envelope>, ops: map<nat, Op>)

  datatype Action =
    | Issue(epoch: uint64)
    | Append(env: Envelope)
    | Admit(record: Record)
    | Start(id: nat, request: Request, now: Instant)
    | Read(id: nat)
    | SearchJournal(id: nat)
    | Commit(id: nat, lands: bool)
    | Drop(id: nat)

  const INITIAL := State(None, {}, [], map[])

  function AskFor(w: World, r: Record): EvidenceRequest
    requires r.attempt.Some?
  {
    EvidenceRequest(r.descriptor.commandID, w.parse(r.descriptor.runtimeCommandID), r.descriptor.kind, r.attempt.value)
  }

  predicate AtWrite(op: Op) {
    op.stage.HasSearched? || (op.stage.HasRead? && !NeedsEvidence(op.stage.row.record, op.request))
  }

  predicate Enabled(w: World, s: State, a: Action) {
    match a
    case Issue(epoch) => epoch != 0 && epoch !in s.issued
    case Append(_) => true
    case Admit(r) => s.row.None? && ValidState(w.validOpaque, r) && r.state == I.Pending
    case Start(id, req, now) =>
      id !in s.ops && ValidRequest(w.validOpaque, req, now) && (req.ClaimIt? ==> req.residency in s.issued)
    case Read(id) => id in s.ops && s.ops[id].stage.Started? && s.row.Some?
    case SearchJournal(id) => id in s.ops && s.ops[id].stage.HasRead? && NeedsEvidence(s.ops[id].stage.row.record, s.ops[id].request)
    case Commit(id, _) => id in s.ops && AtWrite(s.ops[id])
    case Drop(id) => id in s.ops
  }

  function EvidenceOf(op: Op): Result<Evidence, I.InboxError> {
    if op.stage.HasSearched? then op.stage.evidence else Err(I.NoEvidence)
  }

  function DecisionOf(op: Op): Result<Decision, I.InboxError>
    requires AtWrite(op)
  {
    Decide(op.stage.row.record, op.request, op.now, EvidenceOf(op))
  }

  /** The write: decided at the revision the caller expects, accepted by the
      record's own validator, onto the revision it was read at. */
  predicate Writes(w: World, s: State, op: Op, lands: bool)
    requires AtWrite(op)
  {
    var d := DecisionOf(op);
    && lands && op.stage.row.revision == op.request.expectedRevision
    && d.Ok? && d.value.Write? && ValidState(w.validOpaque, d.value.next)
    && s.row.Some? && s.row.value.revision == op.stage.row.revision
  }

  function Apply(w: World, s: State, a: Action): State
    requires Enabled(w, s, a)
  {
    match a
    case Issue(epoch) => s.(issued := s.issued + {epoch})
    case Append(env) => s.(journal := s.journal + [env])
    case Admit(r) => s.(row := Some(Row(r, 1)))
    case Start(id, req, now) => s.(ops := s.ops[id := Op(req, now, Started)])
    case Read(id) => s.(ops := s.ops[id := s.ops[id].(stage := HasRead(s.row.value))])
    case SearchJournal(id) =>
      var op := s.ops[id];
      var found := EvidenceIn(AskFor(w, op.stage.row.record), s.journal);
      s.(ops := s.ops[id := op.(stage := HasSearched(op.stage.row, |s.journal|, found))])
    case Commit(id, lands) =>
      var op := s.ops[id];
      var rest := s.(ops := s.ops - {id});
      if Writes(w, s, op, lands) then rest.(row := Some(Row(DecisionOf(op).value.next, op.stage.row.revision + 1))) else rest
    case Drop(id) => s.(ops := s.ops - {id})
  }

  function After(w: World, run: seq<Action>): Option<State> {
    if run == [] then Some(INITIAL)
    else
      var before := After(w, run[..|run| - 1]);
      if before.Some? && Enabled(w, before.value, run[|run| - 1]) then Some(Apply(w, before.value, run[|run| - 1])) else None
  }

  // ---- what every run keeps --------------------------------------------------------------

  /** The outcome names a disposition that is in the journal: it names the attempt,
      agrees on all three identities, and carries its nearest fence's epoch. */
  ghost predicate OutcomeReal(w: World, journal: seq<Envelope>, r: Record) {
    r.outcome.Some? ==>
      && r.attempt.Some? && 1 <= r.outcome.value.dispositionSeq <= |journal|
      && var p := r.outcome.value.dispositionSeq - 1;
      && Attests(journal, AskFor(w, r), p)
      && journal[p].dispositionKind == r.outcome.value.kind
      && journal[p].leaseEpoch == r.outcome.value.authorJournalEpoch
      && journal[p].attemptJournalEpoch == r.attempt.value.journalEpoch
      && r.outcome.value.settlingResidencyEpoch >= Mark(r)
  }

  ghost predicate RowKept(w: World, s: State) {
    s.row.Some? ==>
      && ValidState(w.validOpaque, s.row.value.record)
      && (s.row.value.record.claim.Some? ==> Mark(s.row.value.record) in s.issued)
      && OutcomeReal(w, s.journal, s.row.value.record)
  }

  ghost predicate OpFresh(w: World, s: State, op: Op) {
    && ValidRequest(w.validOpaque, op.request, op.now) && (op.request.ClaimIt? ==> op.request.residency in s.issued)
    && (!op.stage.Started? ==>
          && s.row.Some? && op.stage.row.revision <= s.row.value.revision
          && (op.stage.row.revision == s.row.value.revision ==> op.stage.row == s.row.value)
          && ValidState(w.validOpaque, op.stage.row.record))
    && (op.stage.HasSearched? ==> SearchFresh(w, s, op))
  }

  ghost predicate SearchFresh(w: World, s: State, op: Op)
    requires op.stage.HasSearched?
  {
    && op.stage.tip <= |s.journal| && op.stage.row.record.attempt.Some?
    && op.stage.evidence == EvidenceIn(AskFor(w, op.stage.row.record), s.journal[..op.stage.tip])
  }

  ghost predicate Inv(w: World, s: State) {
    RowKept(w, s) && forall id :: id in s.ops ==> OpFresh(w, s, s.ops[id])
  }

  lemma AttestsLater(journal: seq<Envelope>, later: seq<Envelope>, req: EvidenceRequest, p: nat)
    requires journal <= later && p < |journal| && Attests(journal, req, p)
    ensures Attests(later, req, p) && later[p] == journal[p]
  {
    FencesOfPrefix(journal, later, p);
  }

  /** A settlement that is about to write names what its own search found. */
  lemma SettledOutcomeIsReal(w: World, s: State, op: Op, next: Record)
    requires AtWrite(op) && op.request.Settle? && OpFresh(w, s, op) && DecisionOf(op) == Ok(Write(next))
    ensures OutcomeReal(w, s.journal, next)
  {
    var ask, seen := AskFor(w, op.stage.row.record), s.journal[..op.stage.tip];
    var e := op.stage.evidence.value;
    EvidenceMeaning(seen, ask, e);
    var p: nat :| SoleAttestation(seen, ask, p, |seen|) && e == EvidenceAt(seen, ask, p);
    AttestsLater(seen, s.journal, ask, p);
  }

  lemma CommitKeepsRow(w: World, s: State, id: nat, lands: bool)
    requires Inv(w, s) && Enabled(w, s, Commit(id, lands)) && Writes(w, s, s.ops[id], lands)
    ensures RowKept(w, Apply(w, s, Commit(id, lands)))
    ensures var t := Apply(w, s, Commit(id, lands));
            t.row.Some? && t.row.value.revision == s.row.value.revision + 1
            && Edge(s.row.value.record, t.row.value.record, s.ops[id].request, s.ops[id].now, EvidenceOf(s.ops[id]))
  {
    var op := s.ops[id];
    assert OpFresh(w, s, op);
    var next := DecisionOf(op).value.next;
    WritesAreValidExactlyWhen(w.validOpaque, op.stage.row.record, op.request, op.now, EvidenceOf(op));
    if op.request.Settle? { SettledOutcomeIsReal(w, s, op, next); }
  }

  lemma RowKeptLater(w: World, s: State, t: State)
    requires RowKept(w, s) && t.row == s.row && s.issued <= t.issued && s.journal <= t.journal
    ensures RowKept(w, t)
  {
    if s.row.Some? && s.row.value.record.outcome.Some? {
      var r := s.row.value.record;
      AttestsLater(s.journal, t.journal, AskFor(w, r), r.outcome.value.dispositionSeq - 1);
    }
  }

  lemma OpFreshLater(w: World, s: State, t: State, op: Op)
    requires OpFresh(w, s, op) && s.issued <= t.issued && s.journal <= t.journal
    requires t.row == s.row || (s.row.Some? && t.row.Some? && t.row.value.revision > s.row.value.revision) || (s.row.None? && op.stage.Started?)
    ensures OpFresh(w, t, op)
  {
    if op.stage.HasSearched? { assert t.journal[..op.stage.tip] == s.journal[..op.stage.tip]; }
  }

  lemma InvStep(w: World, s: State, a: Action)
    requires Inv(w, s) && Enabled(w, s, a)
    ensures Inv(w, Apply(w, s, a))
  {
    var t := Apply(w, s, a);
    if a.Commit? && Writes(w, s, s.ops[a.id], a.lands) {
      CommitKeepsRow(w, s, a.id, a.lands);
    } else if !a.Admit? {
      RowKeptLater(w, s, t);
    }
    forall id | id in t.ops ensures OpFresh(w, t, t.ops[id]) {
      if id in s.ops && t.ops[id] == s.ops[id] {
        assert OpFresh(w, s, s.ops[id]);
        OpFreshLater(w, s, t, s.ops[id]);
      } else if a.SearchJournal? || a.Read? {
        assert OpFresh(w, s, s.ops[id]);
        assert s.journal[..|s.journal|] == s.journal;
      }
    }
  }

  lemma {:induction false} EveryRunKeepsInv(w: World, run: seq<Action>)
    requires After(w, run).Some?
    ensures Inv(w, After(w, run).value)
  {
    if run != [] {
      EveryRunKeepsInv(w, run[..|run| - 1]);
      InvStep(w, After(w, run[..|run| - 1]).value, run[|run| - 1]);
    }
  }

  // ---- the lifecycle over whole runs ---------------------------------------------------------

  ghost predicate RecordMovesOn(r: Record, t: Record) {
    && t.descriptor == r.descriptor && t.acceptedAt == r.acceptedAt && t.applyDeadline == r.applyDeadline
    && I.StatusRank(r.state) <= I.StatusRank(t.state)
    && (r.state.Terminal() ==> t == r)
    && (r.attempt.Some? ==> t.attempt == r.attempt && t.claim == r.claim)
    && Mark(r) <= Mark(t)
  }

  ghost predicate Extends(s: State, t: State) {
    && s.issued <= t.issued && s.journal <= t.journal
    && (s.row.Some? ==>
          && t.row.Some? && s.row.value.revision <= t.row.value.revision
          && (s.row.value.revision == t.row.value.revision ==> s.row == t.row)
          && RecordMovesOn(s.row.value.record, t.row.value.record))
  }

  lemma StepExtends(w: World, s: State, a: Action)
    requires Inv(w, s) && Enabled(w, s, a)
    ensures Extends(s, Apply(w, s, a))
  {
    if a.Commit? && Writes(w, s, s.ops[a.id], a.lands) { CommitKeepsRow(w, s, a.id, a.lands); }
  }

  lemma {:induction false} RunExtends(w: World, run: seq<Action>, n: nat)
    requires n <= |run| && After(w, run).Some?
    ensures After(w, run[..n]).Some? && Extends(After(w, run[..n]).value, After(w, run).value)
    decreases |run|
  {
    if n == |run| {
      assert run[..n] == run;
    } else {
      var front := run[..|run| - 1];
      RunExtends(w, front, n);
      assert front[..n] == run[..n];
      EveryRunKeepsInv(w, front);
      StepExtends(w, After(w, front).value, run[|run| - 1]);
    }
  }

  /** In every run at most one attempt is ever written, and it never changes; a
      command rejected before dispatch never gains one; a settled record is final. */
  lemma OneAttemptForGood(w: World, run: seq<Action>, n: nat)
    requires n <= |run| && After(w, run).Some?
    requires After(w, run[..n]).Some? && After(w, run[..n]).value.row.Some?
    ensures var r := After(w, run[..n]).value.row.value.record;
            && After(w, run).value.row.Some?
            && var t := After(w, run).value.row.value.record;
            && (r.attempt.Some? ==> t.attempt == r.attempt)
            && (r.state == I.Rejected && r.attempt.None? ==> t.attempt.None? && t.outcome.None? && t.state == I.Rejected)
            && (r.state.Terminal() ==> t == r)
  {
    RunExtends(w, run, n);
    EveryRunKeepsInv(w, run[..n]);
  }

  /** In every run the residency mark never falls, was always issued, agrees with
      the attempt's, and bounds the residency of whoever settled. */
  lemma ResidenciesAgree(w: World, run: seq<Action>, n: nat)
    requires n <= |run| && After(w, run).Some?
    requires After(w, run[..n]).Some? && After(w, run[..n]).value.row.Some?
    ensures After(w, run).value.row.Some?
    ensures var r, t := After(w, run[..n]).value.row.value.record, After(w, run).value.row.value.record;
            && Mark(r) <= Mark(t)
            && (t.claim.Some? ==> Mark(t) in After(w, run).value.issued)
            && (t.attempt.Some? ==> t.claim.Some? && t.attempt.value.residencyEpoch == Mark(t))
            && (t.outcome.Some? ==> t.outcome.value.settlingResidencyEpoch >= Mark(t))
  {
    RunExtends(w, run, n);
    EveryRunKeepsInv(w, run);
  }

  /** In every run a settled outcome names a disposition that is in the journal,
      for good, and the only kinds it can carry are what that record says. */
  lemma OutcomesAreInTheJournal(w: World, run: seq<Action>, n: nat)
    requires n <= |run| && After(w, run).Some?
    requires After(w, run[..n]).Some? && After(w, run[..n]).value.row.Some?
    requires After(w, run[..n]).value.row.value.record.outcome.Some?
    ensures After(w, run).value.row == After(w, run[..n]).value.row
    ensures OutcomeReal(w, After(w, run).value.journal, After(w, run).value.row.value.record)
    ensures var r := After(w, run).value.row.value.record;
            r.state == TerminalState(r.outcome.value.kind) && r.state.Terminal()
  {
    RunExtends(w, run, n);
    EveryRunKeepsInv(w, run);
    EveryRunKeepsInv(w, run[..n]);
    SettledRowsAreFinal(w, run, n);
  }

  lemma {:induction false} SettledRowsAreFinal(w: World, run: seq<Action>, n: nat)
    requires n <= |run| && After(w, run).Some?
    requires After(w, run[..n]).Some? && After(w, run[..n]).value.row.Some?
    requires After(w, run[..n]).value.row.value.record.state.Terminal()
    ensures After(w, run).value.row == After(w, run[..n]).value.row
    decreases |run|
  {
    if n == |run| {
      assert run[..n] == run;
    } else {
      var front := run[..|run| - 1];
      assert front[..n] == run[..n];
      SettledRowsAreFinal(w, front, n);
      EveryRunKeepsInv(w, front);
      var s, a := After(w, front).value, run[|run| - 1];
      if a.Commit? && Writes(w, s, s.ops[a.id], a.lands) { CommitKeepsRow(w, s, a.id, a.lands); }
    }
  }

  /** Two writes decided at one revision never both land: the first moves the
      record on, and the second, whenever it comes, finds another revision. */
  lemma OneWinnerPerRevision(w: World, run: seq<Action>, n: nat, id: nat, other: nat)
    requires n < |run| && After(w, run).Some? && run[n] == Commit(id, true)
    requires After(w, run[..n]).Some? && id in After(w, run[..n]).value.ops
    requires var s := After(w, run[..n]).value; AtWrite(s.ops[id]) && Writes(w, s, s.ops[id], true)
    requires var t := After(w, run).value;
             && other in t.ops && AtWrite(t.ops[other])
             && t.ops[other].request.expectedRevision == After(w, run[..n]).value.ops[id].request.expectedRevision
    ensures !Writes(w, After(w, run).value, After(w, run).value.ops[other], true)
  {
    EveryRunKeepsInv(w, run[..n]);
    assert run[..n + 1][..n] == run[..n];
    CommitKeepsRow(w, After(w, run[..n]).value, id, true);
    RunExtends(w, run, n + 1);
  }
}
