/** Hosts, successors and reconcilers settling commands across two stores that
    share no transaction: the session's ledger and the command records.

    Every operation is a clock reading, a record read, for some a journal scan,
    and one compare-and-swap, each a step of its own; anything may run between
    them, any operation may be dropped at any point, and any write may lose its
    acknowledgement. What a Host owes the protocol, and this store cannot check,
    is stated in `Conforms`, `HonestCompletion` and the guard of `Start`. */
module RecoveryProtocol {
  import opened Wrappers
  import opened Bytes
  import opened Envelopes
  import opened Clock
  import opened Recovery
  import opened Inbox
  import J = JournalOwnership

  type Epoch = J.Epoch

  /** What this model leaves to its environment: the UUID parser and Core's rules. */
  datatype World = World(parse: Text -> Uuid16, rules: InboxRules)

  /** What one grant's Host knows: the commands whose BeginApplying was answered
      to it, the application it has opened in the journal, the commands whose
      rejection it has sent, and the effects its own appends returned. */
  datatype Host = Host(began: set<Text>, open: Option<Text>, abandoned: set<Text>, effects: set<(Text, nat, Text)>)

  const NEW_HOST := Host({}, None, {}, {})

  datatype Row = Row(record: InboxRecord, revision: nat)

  /** An operation in flight. `Won` is an answered BeginApplying its Host has not
      yet learned of. */
  datatype Stage = Started | HasRead(row: Row) | HasScanned(row: Row, app: CommandApplication) | Won

  datatype Op = Op(command: Text, request: Request, now: Instant, stage: Stage)

  datatype State = State(j: J.State, rows: map<Text, Row>, hosts: map<Epoch, Host>, ops: map<nat, Op>)

  datatype Action =
    | Ledger(a: J.Action)
    | Admit(record: InboxRecord)
    | Start(id: nat, command: Text, request: Request, now: Instant)
    | Read(id: nat)
    | Scan(id: nat)
    | Commit(id: nat, fate: J.Fate)
    | Learn(id: nat)
    | Drop(id: nat)

  const INITIAL := State(J.INITIAL, map[], map[], map[])

  // ---- the obligations a conforming Host keeps ---------------------------------

  ghost predicate Rejecting(s: State, e: Epoch, c: Text) {
    exists id :: id in s.ops && s.ops[id].request.Reject? && s.ops[id].command == c && s.ops[id].request.leaseEpoch == e
  }

  /** A prefix is appended only for a command this grant's own BeginApplying was
      answered for, under the record's identities, one application at a time, and
      never once this grant's rejection of it is in flight or sent. After a prefix
      the next record is its effect. */
  ghost predicate Conforms(w: World, s: State, e: Epoch, env: Envelope) {
    && e in s.hosts
    && if env.IsPrefix() then
         var c := env.commandID;
         && s.hosts[e].open.None?
         && c in s.hosts[e].began && c !in s.hosts[e].abandoned && !Rejecting(s, e, c)
         && c in s.rows && Correlates(env, KeyOf(s.rows[c].record, w.parse))
       else s.hosts[e].open.Some? ==> env.IsPublicEvent()
  }

  /** A completion at the claim's own epoch names an effect that Host's own append
      returned; the store takes it on trust. */
  ghost predicate HonestCompletion(s: State, op: Op, row: Row) {
    op.request.Complete? && op.request.leaseEpoch == row.record.claim.leaseEpoch ==>
      op.request.leaseEpoch in s.hosts &&
      (op.command, op.request.result.journalSeq, op.request.result.eventID) in s.hosts[op.request.leaseEpoch].effects
  }

  // ---- the steps -----------------------------------------------------------------

  predicate AtWrite(op: Op) {
    || op.stage.HasScanned?
    || (op.stage.HasRead? && !NeedsScan(op.stage.row.record, op.request, op.now))
  }

  ghost predicate Enabled(w: World, s: State, a: Action) {
    match a
    case Ledger(ja) =>
      && J.Enabled(s.j, ja) && J.CurrentAtTipRead(s.j, ja)
      && (ja.Append? ==> Conforms(w, s, ja.e, ja.env))
    case Admit(r) => r.commandID !in s.rows && ValidRecord(w.rules, r) && r.state == Pending
    case Start(id, _, req, now) => id !in s.ops && ValidRequest(w.rules, req, now) && (!req.Reject? ==> req.leaseEpoch in s.hosts)
    case Read(id) => id in s.ops && s.ops[id].stage.Started? && s.ops[id].command in s.rows
    case Scan(id) => id in s.ops && s.ops[id].stage.HasRead?
    case Commit(id, _) => id in s.ops && AtWrite(s.ops[id]) && HonestCompletion(s, s.ops[id], s.ops[id].stage.row)
    case Learn(id) => id in s.ops && s.ops[id].stage.Won?
    case Drop(id) => id in s.ops
  }

  const NO_SCAN := CommandApplication(NOTHING_FOUND, 0, 0)

  function AppOf(op: Op): CommandApplication { if op.stage.HasScanned? then op.stage.app else NO_SCAN }

  function DecisionOf(op: Op): Result<Transition, InboxError>
    requires AtWrite(op)
  {
    Decide(op.stage.row.record, op.stage.row.revision, op.request, op.now, AppOf(op))
  }

  /** The compare-and-swap lands: decided, onto the revision it was decided at. */
  predicate Writes(s: State, op: Op, fate: J.Fate)
    requires AtWrite(op)
  {
    && DecisionOf(op).Ok?
    && op.command in s.rows
    && J.Lands(s.rows[op.command].revision, op.stage.row.revision, fate)
  }

  function HostsAfterAppend(s: State, e: Epoch, env: Envelope, landed: bool): map<Epoch, Host> {
    if !landed || e !in s.hosts then s.hosts
    else
      var h := s.hosts[e];
      if env.IsPrefix() then s.hosts[e := h.(open := Some(env.commandID))]
      else if h.open.Some? then
        s.hosts[e := h.(open := None, effects := h.effects + {(h.open.value, |s.j.records| + 1, env.eventID)})]
      else s.hosts
  }

  /** A rejection that landed, or may have, is one its Host no longer applies under. */
  function HostsAfterReject(s: State, op: Op, fate: J.Fate, lands: bool): map<Epoch, Host> {
    var e := op.request.leaseEpoch;
    if op.request.Reject? && e in s.hosts && (lands || fate.AckLost?) then
      s.hosts[e := s.hosts[e].(abandoned := s.hosts[e].abandoned + {op.command})]
    else s.hosts
  }

  function Commits(s: State, id: nat, fate: J.Fate): State
    requires id in s.ops && AtWrite(s.ops[id])
  {
    var op := s.ops[id];
    var lands := Writes(s, op, fate);
    var hosts := HostsAfterReject(s, op, fate, lands);
    if !lands then s.(hosts := hosts, ops := s.ops - {id})
    else
      var row := Row(Moved(op.stage.row.record, DecisionOf(op).value), op.stage.row.revision + 1);
      s.(rows := s.rows[op.command := row],
         hosts := hosts,
         ops := if op.request.BeginApplying? && fate.Answered? then s.ops[id := op.(stage := Won)] else s.ops - {id})
  }

  ghost function Apply(w: World, s: State, a: Action): State
    requires Enabled(w, s, a)
  {
    match a
    case Ledger(ja) =>
      var hosts := match ja
                   case Acquire(e) => s.hosts[e := NEW_HOST]
                   case Append(e, env, fate) =>
                     HostsAfterAppend(s, e, env, J.OutcomeOf(|s.j.records|, s.j.writers[e].tracked, fate) == J.Landed)
                   case _ => s.hosts;
      s.(j := J.Apply(s.j, ja), hosts := hosts)
    case Admit(r) => s.(rows := s.rows[r.commandID := Row(r, 1)])
    case Start(id, c, req, now) => s.(ops := s.ops[id := Op(c, req, now, Started)])
    case Read(id) => s.(ops := s.ops[id := s.ops[id].(stage := HasRead(s.rows[s.ops[id].command]))])
    case Scan(id) =>
      var op := s.ops[id];
      var app := Correlate(s.j.records, KeyOf(op.stage.row.record, w.parse));
      s.(ops := s.ops[id := op.(stage := HasScanned(op.stage.row, app))])
    case Commit(id, fate) => Commits(s, id, fate)
    case Learn(id) =>
      var op := s.ops[id];
      var e := op.request.leaseEpoch;
      var hosts := if e in s.hosts then s.hosts[e := s.hosts[e].(began := s.hosts[e].began + {op.command})] else s.hosts;
      s.(hosts := hosts, ops := s.ops - {id})
    case Drop(id) => s.(ops := s.ops - {id})
  }

  ghost function After(w: World, run: seq<Action>): Option<State> {
    if run == [] then Some(INITIAL)
    else
      var before := After(w, run[..|run| - 1]);
      if before.Some? && Enabled(w, before.value, run[|run| - 1]) then Some(Apply(w, before.value, run[|run| - 1]))
      else None
  }

  // ---- what every run keeps --------------------------------------------------------

  predicate PrefixOf(env: Envelope, c: Text) { env.IsPrefix() && env.commandID == c }

  /** The journal holds a prefix naming `c` and, right after it, this public event. */
  predicate EffectAt(records: seq<Envelope>, c: Text, seqNo: nat, eventID: Text) {
    && 2 <= seqNo <= |records|
    && PrefixOf(records[seqNo - 2], c)
    && records[seqNo - 1].IsPublicEvent() && records[seqNo - 1].eventID == eventID
  }

  ghost predicate Dead(j: J.State, e: Epoch) { exists f :: 0 <= f < |j.authors| && j.authors[f] > e }

  /** Grant `e` holds an answered BeginApplying of `c`. */
  ghost predicate Holds(s: State, e: Epoch, c: Text) {
    || (e in s.hosts && c in s.hosts[e].began)
    || exists id :: WonBy(s, id, e, c)
  }

  ghost predicate WonBy(s: State, id: nat, e: Epoch, c: Text) {
    id in s.ops && s.ops[id].stage.Won? && s.ops[id].command == c && s.ops[id].request.leaseEpoch == e
  }

  ghost predicate JournalKept(s: State) {
    J.Inv(s.j) && J.FencesAscend(s.j) && s.hosts.Keys == s.j.writers.Keys
  }

  ghost predicate RowsKept(w: World, s: State) {
    forall c :: c in s.rows ==> s.rows[c].record.commandID == c && s.rows[c].revision > 0 && ValidRecord(w.rules, s.rows[c].record)
  }

  /** Every prefix was written by a grant that began that command, under the
      record's own identities. */
  ghost predicate PrefixKnown(w: World, s: State, p: nat)
    requires p < |s.j.records| && |s.j.authors| == |s.j.records|
  {
    var c, e := s.j.records[p].commandID, s.j.authors[p];
    c in s.rows && Correlates(s.j.records[p], KeyOf(s.rows[c].record, w.parse)) && e in s.hosts && c in s.hosts[e].began
  }

  ghost predicate PrefixesKnown(w: World, s: State)
    requires |s.j.authors| == |s.j.records|
  {
    forall p :: 0 <= p < |s.j.records| && s.j.records[p].IsPrefix() ==> PrefixKnown(w, s, p)
  }

  /** A begun command is applying or settled, under exactly that grant's claim. */
  ghost predicate Begun(s: State) {
    forall e, c :: Holds(s, e, c) ==>
      c in s.rows && s.rows[c].record.claim.leaseEpoch == e && StatusRank(s.rows[c].record.state) >= 2
  }

  /** What follows a prefix is its effect or a fence. */
  ghost predicate Adjacent(s: State) {
    forall p :: 0 <= p && p + 1 < |s.j.records| && s.j.records[p].IsPrefix() ==>
      s.j.records[p + 1].IsPublicEvent() || s.j.records[p + 1].IsFence()
  }

  ghost predicate OpenTracked(s: State, e: Epoch)
    requires e in s.j.writers && e in s.hosts
  {
    && (s.j.writers[e].Granted? || s.j.writers[e].TipTaken? ==> s.hosts[e].open.None?)
    && (s.j.writers[e].Owning? ==>
      var t := s.j.writers[e].tracked;
      && 1 <= t <= |s.j.records|
      && (s.hosts[e].open.Some? <==> s.j.records[t - 1].IsPrefix())
      && (s.hosts[e].open.Some? ==> s.hosts[e].open.value == s.j.records[t - 1].commandID))
  }

  ghost predicate OpensTracked(s: State)
    requires s.hosts.Keys == s.j.writers.Keys
  {
    forall e :: e in s.hosts ==> OpenTracked(s, e)
  }

  ghost predicate EffectsReal(s: State) {
    forall e, x :: e in s.hosts && x in s.hosts[e].effects ==> EffectAt(s.j.records, x.0, x.1, x.2)
  }

  /** What an operation read is still the record, or the record has moved on. */
  ghost predicate OpFresh(w: World, s: State, op: Op) {
    && (!op.request.Reject? ==> op.request.leaseEpoch in s.hosts)
    && (op.stage.Won? ==> op.request.BeginApplying?)
    && (op.stage.HasRead? || op.stage.HasScanned? ==> ReadFresh(w, s, op))
  }

  ghost predicate ReadFresh(w: World, s: State, op: Op)
    requires op.stage.HasRead? || op.stage.HasScanned?
  {
    && op.command in s.rows
    && op.stage.row.revision <= s.rows[op.command].revision
    && (op.stage.row.revision == s.rows[op.command].revision ==> op.stage.row == s.rows[op.command])
    && SameAdmission(op.stage.row.record, s.rows[op.command].record)
    && ValidRecord(w.rules, op.stage.row.record)
    && ValidRequest(w.rules, op.request, op.now)
    && (op.stage.HasScanned? ==> ScanFresh(w, s, op))
  }

  ghost predicate ScanFresh(w: World, s: State, op: Op)
    requires op.stage.HasScanned?
  {
    var tip := op.stage.app.capturedTip;
    tip <= |s.j.records| && op.stage.app == Correlate(s.j.records[..tip], KeyOf(op.stage.row.record, w.parse))
  }

  ghost predicate OpsFresh(w: World, s: State) {
    forall id :: id in s.ops ==> OpFresh(w, s, s.ops[id]) && ValidRequest(w.rules, s.ops[id].request, s.ops[id].now)
  }

  /** Since a holder's scan for its own rejection it has written no new prefix. */
  ghost predicate HolderQuiet(s: State, op: Op)
    requires |s.j.authors| == |s.j.records|
  {
    op.request.Reject? && op.stage.HasScanned? ==>
      forall p :: op.stage.app.capturedTip <= p < |s.j.records| && PrefixOf(s.j.records[p], op.command) ==>
                    s.j.authors[p] != op.request.leaseEpoch
  }

  ghost predicate HoldersQuiet(s: State)
    requires |s.j.authors| == |s.j.records|
  {
    forall id :: id in s.ops ==> HolderQuiet(s, s.ops[id])
  }

  predicate RanIntoFence(records: seq<Envelope>, p: nat) { p + 1 < |records| && records[p + 1].IsFence() }

  /** A rejected command's every prefix ran into a fence, and no grant that could
      write another is both able and willing to. */
  ghost predicate RejectionSafe(s: State, c: Text) {
    && (forall p :: 0 <= p < |s.j.records| && PrefixOf(s.j.records[p], c) ==> RanIntoFence(s.j.records, p))
    && (forall e :: Holds(s, e, c) ==> (e in s.hosts && c in s.hosts[e].abandoned) || Dead(s.j, e))
  }

  ghost predicate RejectionsSafe(s: State) {
    forall c :: c in s.rows && s.rows[c].record.state == Rejected ==> RejectionSafe(s, c)
  }

  ghost predicate ApplicationsReal(s: State) {
    forall c :: c in s.rows && s.rows[c].record.state == Applied ==>
      EffectAt(s.j.records, c, s.rows[c].record.result.journalSeq, s.rows[c].record.result.eventID)
  }

  ghost predicate Inv(w: World, s: State) {
    && JournalKept(s) && RowsKept(w, s) && PrefixesKnown(w, s) && Begun(s) && Adjacent(s) && OpensTracked(s)
    && EffectsReal(s) && OpsFresh(w, s) && HoldersQuiet(s) && RejectionsSafe(s) && ApplicationsReal(s)
  }

  // ---- ledger steps -----------------------------------------------------------------

  /** What a ledger step changes: at most one record, written by a fence or by a
      conforming grant that still owns the tip. */
  ghost predicate Grew(w: World, s: State, t: State) {
    && t.rows == s.rows && t.ops == s.ops
    && |s.j.authors| == |s.j.records| && |t.j.authors| == |t.j.records| <= |s.j.records| + 1
    && s.j.records <= t.j.records && s.j.authors <= t.j.authors
    && s.hosts.Keys <= t.hosts.Keys
    && (forall e :: e in t.hosts ==>
          if e in s.hosts then t.hosts[e].began == s.hosts[e].began && t.hosts[e].abandoned == s.hosts[e].abandoned
          else t.hosts[e] == NEW_HOST)
    && (|t.j.records| > |s.j.records| ==> NewRecord(w, s, t.j.records[|s.j.records|], t.j.authors[|s.j.records|]))
  }

  ghost predicate NewRecord(w: World, s: State, env: Envelope, e: Epoch)
  {
    env.IsFence() || (Conforms(w, s, e, env) && OwnsTip(s.j, e) && !Dead(s.j, e))
  }

  predicate OwnsTip(j: J.State, e: Epoch) { e in j.writers && j.writers[e] == J.Owning(|j.records|) }

  /** A grant below any fence no longer owns the tip. */
  lemma OwnersAreNotDead(j: J.State, e: Epoch)
    requires J.Inv(j) && J.FencesAscend(j) && OwnsTip(j, e)
    ensures !Dead(j, e)
  {
    assert J.WriterPlaced(j, e);
  }

  lemma HostsOnlyLearnByAppend(s: State, e: Epoch, env: Envelope, landed: bool)
    ensures var hosts := HostsAfterAppend(s, e, env, landed);
            && hosts.Keys == s.hosts.Keys
            && forall x :: x in s.hosts ==>
                 && hosts[x].began == s.hosts[x].began && hosts[x].abandoned == s.hosts[x].abandoned
                 && (x != e || !landed ==> hosts[x] == s.hosts[x])
  {
  }

  lemma AppendGrows(w: World, s: State, ja: J.Action)
    requires JournalKept(s) && Enabled(w, s, Ledger(ja)) && ja.Append?
    ensures Grew(w, s, Apply(w, s, Ledger(ja)))
  {
    J.StepShape(s.j, ja);
    HostsOnlyLearnByAppend(s, ja.e, ja.env, J.OutcomeOf(|s.j.records|, s.j.writers[ja.e].tracked, ja.fate) == J.Landed);
    if OwnsTip(s.j, ja.e) { OwnersAreNotDead(s.j, ja.e); }
  }

  lemma LedgerGrows(w: World, s: State, ja: J.Action)
    requires JournalKept(s) && Enabled(w, s, Ledger(ja))
    ensures Grew(w, s, Apply(w, s, Ledger(ja))) && JournalKept(Apply(w, s, Ledger(ja)))
  {
    J.InvStep(s.j, ja);
    J.FencesAscendStep(s.j, ja);
    J.StepShape(s.j, ja);
    if ja.Append? { AppendGrows(w, s, ja); }
  }

  lemma GrowthKeepsPrefixes(w: World, s: State, t: State)
    requires Grew(w, s, t) && PrefixesKnown(w, s) && Adjacent(s) && s.hosts.Keys == s.j.writers.Keys && OpensTracked(s)
    ensures PrefixesKnown(w, t) && Adjacent(t)
  {
    forall p | 0 <= p < |t.j.records| && t.j.records[p].IsPrefix() ensures PrefixKnown(w, t, p) {
      if p < |s.j.records| {
        assert t.j.records[p] == s.j.records[p] && PrefixKnown(w, s, p);
      }
    }
    if |t.j.records| > |s.j.records| {
      var e := t.j.authors[|s.j.records|];
      if OwnsTip(s.j, e) { assert OpenTracked(s, e); }
    }
  }

  /** The grant that acted: its own append is what its Host now has open. */
  lemma AppenderOpenTracked(w: World, s: State, ja: J.Action)
    requires JournalKept(s) && OpensTracked(s) && Enabled(w, s, Ledger(ja)) && ja.Append?
    ensures var t := Apply(w, s, Ledger(ja));
            ja.e in t.j.writers && ja.e in t.hosts && OpenTracked(t, ja.e)
  {
    assert OpenTracked(s, ja.e) && J.WriterPlaced(s.j, ja.e);
  }

  lemma ActorOpenTracked(w: World, s: State, ja: J.Action)
    requires JournalKept(s) && OpensTracked(s) && Enabled(w, s, Ledger(ja))
    ensures var t := Apply(w, s, Ledger(ja));
            ja.e in t.j.writers && ja.e in t.hosts && OpenTracked(t, ja.e)
  {
    if ja.Append? {
      AppenderOpenTracked(w, s, ja);
    } else {
      J.StepShape(s.j, ja);
      if ja.e in s.hosts { assert OpenTracked(s, ja.e) && J.WriterPlaced(s.j, ja.e); }
    }
  }

  /** No other grant sees anything of it. */
  lemma StepLeavesBystanders(w: World, s: State, ja: J.Action, e: Epoch)
    requires JournalKept(s) && Enabled(w, s, Ledger(ja)) && e != ja.e && e in s.hosts
    ensures var t := Apply(w, s, Ledger(ja));
            && e in t.j.writers && e in t.hosts && t.hosts[e] == s.hosts[e] && t.j.writers[e] == s.j.writers[e]
            && s.j.records <= t.j.records
  {
    J.StepShape(s.j, ja);
  }

  lemma BystanderOpenTracked(s: State, t: State, e: Epoch)
    requires e in s.j.writers && e in s.hosts && OpenTracked(s, e) && s.j.records <= t.j.records
    requires e in t.j.writers && e in t.hosts && t.hosts[e] == s.hosts[e] && t.j.writers[e] == s.j.writers[e]
    ensures OpenTracked(t, e)
  {
  }

  lemma LedgerKeepsOpens(w: World, s: State, ja: J.Action)
    requires JournalKept(s) && OpensTracked(s) && Enabled(w, s, Ledger(ja))
    ensures var t := Apply(w, s, Ledger(ja));
            t.hosts.Keys == t.j.writers.Keys && OpensTracked(t)
  {
    var t := Apply(w, s, Ledger(ja));
    J.StepShape(s.j, ja);
    assert t.hosts.Keys == s.hosts.Keys + (if ja.Acquire? then {ja.e} else {});
    forall e | e in t.hosts ensures OpenTracked(t, e) {
      if e == ja.e {
        ActorOpenTracked(w, s, ja);
      } else {
        StepLeavesBystanders(w, s, ja, e);
        BystanderOpenTracked(s, t, e);
      }
    }
  }

  lemma LedgerKeepsEffects(w: World, s: State, ja: J.Action)
    requires JournalKept(s) && OpensTracked(s) && EffectsReal(s) && Enabled(w, s, Ledger(ja))
    ensures EffectsReal(Apply(w, s, Ledger(ja)))
  {
    var t := Apply(w, s, Ledger(ja));
    forall e, x | e in t.hosts && x in t.hosts[e].effects ensures EffectAt(t.j.records, x.0, x.1, x.2) {
      if e in s.hosts && x in s.hosts[e].effects {
        assert EffectAt(s.j.records, x.0, x.1, x.2);
      } else {
        assert OpenTracked(s, e);
      }
    }
  }

  lemma GrowthKeepsHolds(w: World, s: State, t: State)
    requires Grew(w, s, t) && Begun(s)
    ensures Begun(t) && forall e, c :: Holds(t, e, c) ==> Holds(s, e, c)
  {
    forall e, c | Holds(t, e, c) ensures Holds(s, e, c) {
      if id :| WonBy(t, id, e, c) { assert WonBy(s, id, e, c); }
    }
  }

  lemma GrowthKeepsRejections(w: World, s: State, t: State)
    requires Grew(w, s, t) && Begun(s) && RejectionsSafe(s)
    ensures RejectionsSafe(t)
  {
    GrowthKeepsHolds(w, s, t);
    forall c | c in t.rows && t.rows[c].record.state == Rejected ensures RejectionSafe(t, c) {
      assert RejectionSafe(s, c);
      forall p | 0 <= p < |t.j.records| && PrefixOf(t.j.records[p], c) ensures RanIntoFence(t.j.records, p) {
        if p == |s.j.records| {
          assert Holds(s, t.j.authors[p], c);
        } else {
          assert s.j.records[p] == t.j.records[p] && RanIntoFence(s.j.records, p);
        }
      }
      forall e | Holds(t, e, c) ensures (e in t.hosts && c in t.hosts[e].abandoned) || Dead(t.j, e) {
        if Dead(s.j, e) {
          var f :| 0 <= f < |s.j.authors| && s.j.authors[f] > e;
          assert t.j.authors[f] > e;
        }
      }
    }
  }

  lemma GrowthKeepsApplications(w: World, s: State, t: State)
    requires Grew(w, s, t) && ApplicationsReal(s)
    ensures ApplicationsReal(t)
  {
  }

  lemma GrowthKeepsOps(w: World, s: State, t: State)
    requires Grew(w, s, t) && OpsFresh(w, s) && HoldersQuiet(s)
    ensures OpsFresh(w, t) && HoldersQuiet(t)
  {
    forall id | id in t.ops ensures OpFresh(w, t, t.ops[id]) && HolderQuiet(t, t.ops[id]) {
      var op := s.ops[id];
      assert OpFresh(w, s, op) && HolderQuiet(s, op);
      if op.stage.HasScanned? {
        assert t.j.records[..op.stage.app.capturedTip] == s.j.records[..op.stage.app.capturedTip];
        assert op.request.Reject? ==> Rejecting(s, op.request.leaseEpoch, op.command);
      }
    }
  }

  // ---- steps that leave the ledger alone ---------------------------------------------

  /** Rows are only added, or moved to a later revision with admission kept. */
  ghost predicate RowsAdvance(s: State, t: State) {
    forall c :: c in s.rows ==>
      && c in t.rows
      && (t.rows[c] == s.rows[c] ||
          (t.rows[c].revision > s.rows[c].revision && SameAdmission(s.rows[c].record, t.rows[c].record)))
  }

  ghost predicate LedgerUntouched(s: State, t: State) {
    && t.j == s.j && t.hosts.Keys == s.hosts.Keys && RowsAdvance(s, t)
    && forall e :: e in s.hosts ==>
         && t.hosts[e].open == s.hosts[e].open && t.hosts[e].effects == s.hosts[e].effects
         && s.hosts[e].began <= t.hosts[e].began && s.hosts[e].abandoned <= t.hosts[e].abandoned
  }

  lemma UntouchedKeepsJournal(w: World, s: State, t: State)
    requires LedgerUntouched(s, t)
    requires JournalKept(s) && PrefixesKnown(w, s) && Adjacent(s) && OpensTracked(s) && EffectsReal(s)
    ensures JournalKept(t) && PrefixesKnown(w, t) && Adjacent(t) && OpensTracked(t) && EffectsReal(t)
  {
    forall p | 0 <= p < |t.j.records| && t.j.records[p].IsPrefix() ensures PrefixKnown(w, t, p) {
      assert PrefixKnown(w, s, p);
    }
    forall e | e in t.hosts ensures OpenTracked(t, e) { assert OpenTracked(s, e); }
  }

  lemma UntouchedKeepsOp(w: World, s: State, t: State, op: Op)
    requires LedgerUntouched(s, t) && |s.j.authors| == |s.j.records|
    requires OpFresh(w, s, op) && HolderQuiet(s, op)
    ensures OpFresh(w, t, op) && HolderQuiet(t, op)
  {
  }

  lemma UntouchedKeepsOps(w: World, s: State, t: State)
    requires LedgerUntouched(s, t) && |s.j.authors| == |s.j.records| && OpsFresh(w, s) && HoldersQuiet(s)
    requires forall id :: id in t.ops ==>
               || (id in s.ops && t.ops[id] == s.ops[id])
               || (OpFresh(w, t, t.ops[id]) && HolderQuiet(t, t.ops[id]) &&
                   ValidRequest(w.rules, t.ops[id].request, t.ops[id].now))
    ensures OpsFresh(w, t) && HoldersQuiet(t)
  {
    forall id | id in t.ops ensures OpFresh(w, t, t.ops[id]) && HolderQuiet(t, t.ops[id]) {
      if id in s.ops && t.ops[id] == s.ops[id] {
        UntouchedKeepsOp(w, s, t, s.ops[id]);
      }
    }
  }

  lemma RejectionsOutliveOpSteps(s: State, t: State)
    requires RejectionsSafe(s) && LedgerUntouched(s, t)
    requires forall e, c :: Holds(t, e, c) ==> Holds(s, e, c)
    requires forall c :: c in t.rows && t.rows[c].record.state == Rejected ==> c in s.rows && s.rows[c].record.state == Rejected
    ensures RejectionsSafe(t)
  {
    forall c | c in t.rows && t.rows[c].record.state == Rejected ensures RejectionSafe(t, c) {
      assert RejectionSafe(s, c);
    }
  }

  lemma ReadingIsFresh(w: World, s: State, a: Action)
    requires Enabled(w, s, a) && (a.Read? || a.Scan?)
    requires RowsKept(w, s) && OpsFresh(w, s) && |s.j.authors| == |s.j.records| && HoldersQuiet(s)
    ensures var t := Apply(w, s, a);
            && OpFresh(w, t, t.ops[a.id]) && HolderQuiet(t, t.ops[a.id])
            && ValidRequest(w.rules, t.ops[a.id].request, t.ops[a.id].now)
  {
    assert OpFresh(w, s, s.ops[a.id]);
    if a.Scan? { assert s.j.records[..|s.j.records|] == s.j.records; }
  }

  predicate OpStep(a: Action) { a.Start? || a.Read? || a.Scan? || a.Drop? || a.Admit? }

  lemma OpStepLeavesLedger(w: World, s: State, a: Action)
    requires Enabled(w, s, a) && (OpStep(a) || a.Learn?)
    ensures LedgerUntouched(s, Apply(w, s, a))
  {
  }

  lemma OpStepKeepsOps(w: World, s: State, a: Action)
    requires Enabled(w, s, a) && OpStep(a)
    requires RowsKept(w, s) && OpsFresh(w, s) && |s.j.authors| == |s.j.records| && HoldersQuiet(s)
    ensures OpsFresh(w, Apply(w, s, a)) && HoldersQuiet(Apply(w, s, a))
  {
    OpStepLeavesLedger(w, s, a);
    if a.Read? || a.Scan? { ReadingIsFresh(w, s, a); }
    UntouchedKeepsOps(w, s, Apply(w, s, a));
  }

  lemma OpStepKeepsRows(w: World, s: State, a: Action)
    requires Enabled(w, s, a) && (OpStep(a) || a.Learn?)
    requires RowsKept(w, s) && ApplicationsReal(s)
    ensures RowsKept(w, Apply(w, s, a)) && ApplicationsReal(Apply(w, s, a))
    ensures var t := Apply(w, s, a);
            forall c :: c in t.rows && t.rows[c].record.state == Rejected ==> c in s.rows && s.rows[c].record.state == Rejected
  {
  }

  /** A step that changes only which operations are in flight, what they have
      read, or which commands are admitted. */
  lemma OpStepKeepsInv(w: World, s: State, a: Action)
    requires Inv(w, s) && Enabled(w, s, a) && OpStep(a)
    ensures Inv(w, Apply(w, s, a))
  {
    var t := Apply(w, s, a);
    OpStepLeavesLedger(w, s, a);
    UntouchedKeepsJournal(w, s, t);
    OpStepKeepsOps(w, s, a);
    OpStepKeepsRows(w, s, a);
    OpStepKeepsHolds(w, s, a);
    RejectionsOutliveOpSteps(s, t);
  }

  lemma OpStepKeepsHolds(w: World, s: State, a: Action)
    requires Enabled(w, s, a) && Begun(s)
    requires OpStep(a) || a.Learn?
    ensures Begun(Apply(w, s, a)) && forall e, c :: Holds(Apply(w, s, a), e, c) ==> Holds(s, e, c)
  {
    var t := Apply(w, s, a);
    forall e, c | Holds(t, e, c) ensures Holds(s, e, c) {
      if e in t.hosts && c in t.hosts[e].began {
        if !(e in s.hosts && c in s.hosts[e].began) { assert WonBy(s, a.id, e, c); }
      } else {
        var id :| WonBy(t, id, e, c);
        assert WonBy(s, id, e, c);
      }
    }
  }

  lemma LearnKeepsInv(w: World, s: State, id: nat)
    requires Inv(w, s) && Enabled(w, s, Learn(id))
    ensures Inv(w, Apply(w, s, Learn(id)))
  {
    var t := Apply(w, s, Learn(id));
    OpStepLeavesLedger(w, s, Learn(id));
    UntouchedKeepsJournal(w, s, t);
    UntouchedKeepsOps(w, s, t);
    OpStepKeepsRows(w, s, Learn(id));
    OpStepKeepsHolds(w, s, Learn(id));
    RejectionsOutliveOpSteps(s, t);
  }

  // ---- the compare-and-swap --------------------------------------------------------------

  /** A decided operation whose write lands was decided on the record still there. */
  lemma LandedOnWhatItRead(w: World, s: State, id: nat, fate: J.Fate)
    requires id in s.ops && AtWrite(s.ops[id]) && Writes(s, s.ops[id], fate) && OpFresh(w, s, s.ops[id])
    ensures var op := s.ops[id];
            var r := s.rows[op.command].record;
            && op.stage.row == s.rows[op.command]
            && ValidRecord(w.rules, Moved(r, DecisionOf(op).value))
            && Edge(r, Moved(r, DecisionOf(op).value), op.request, op.now, AppOf(op))
  {
    var op := s.ops[id];
    DecidedExactlyWhenAllowed(w.rules, op.stage.row.record, op.stage.row.revision, op.request, op.now, AppOf(op));
  }

  lemma CommitLeavesLedger(w: World, s: State, id: nat, fate: J.Fate)
    requires id in s.ops && AtWrite(s.ops[id]) && OpFresh(w, s, s.ops[id])
    ensures LedgerUntouched(s, Commits(s, id, fate))
  {
    if Writes(s, s.ops[id], fate) { LandedOnWhatItRead(w, s, id, fate); }
  }

  ghost predicate BeginsNow(s: State, id: nat, fate: J.Fate, e: Epoch, c: Text)
    requires id in s.ops && AtWrite(s.ops[id])
  {
    var op := s.ops[id];
    Writes(s, op, fate) && op.request.BeginApplying? && c == op.command && e == op.request.leaseEpoch
  }

  lemma CommitKeepsHolds(w: World, s: State, id: nat, fate: J.Fate)
    requires id in s.ops && AtWrite(s.ops[id]) && OpFresh(w, s, s.ops[id]) && Begun(s)
    ensures Begun(Commits(s, id, fate))
    ensures forall e, c :: Holds(Commits(s, id, fate), e, c) ==> Holds(s, e, c) || BeginsNow(s, id, fate, e, c)
  {
    var t, op := Commits(s, id, fate), s.ops[id];
    if Writes(s, op, fate) { LandedOnWhatItRead(w, s, id, fate); }
    forall e, c | Holds(t, e, c) && !BeginsNow(s, id, fate, e, c)
      ensures Holds(s, e, c)
    {
      if !(e in t.hosts && c in t.hosts[e].began) {
        var won :| WonBy(t, won, e, c);
        assert WonBy(s, won, e, c);
      }
    }
  }

  /** The heart of the two-store argument: every prefix the journal holds for the
      command was there when the rejection's scan was taken. Before applying there
      is none; a holder wrote none since; a successor's scan saw a fence above the
      only grant that could. */
  lemma ScanSawEveryPrefix(w: World, s: State, op: Op, p: nat)
    requires JournalKept(s) && PrefixesKnown(w, s) && Begun(s)
    requires op.request.Reject? && op.stage.HasScanned? && OpFresh(w, s, op) && HolderQuiet(s, op)
    requires DecisionOf(op).Ok? && op.command in s.rows && op.stage.row == s.rows[op.command]
    requires op.stage.row.record.commandID == op.command
    requires p < |s.j.records| && PrefixOf(s.j.records[p], op.command)
    ensures p < op.stage.app.capturedTip
    ensures Names(s.j.records[p], KeyOf(op.stage.row.record, w.parse))
  {
    var r, app := op.stage.row.record, op.stage.app;
    var tip := app.capturedTip;
    assert PrefixKnown(w, s, p);
    assert Holds(s, s.j.authors[p], op.command);
    if Recovering(r, op.now) {
      var f := FenceAbove(s.j.records[..tip], r.claim.leaseEpoch);
      assert s.j.authors[f] > s.j.authors[p];
    }
  }

  lemma FenceAbove(records: seq<Envelope>, e: nat) returns (f: nat)
    requires FenceMax(records, |records|) > e
    ensures f < |records| && records[f].IsFence() && records[f].leaseEpoch > e
  {
    FenceMaxMeaning(records, |records|);
    f :| 0 <= f < |records| && records[f].IsFence() && records[f].leaseEpoch == FenceMax(records, |records|);
  }

  lemma RejectionLandsSafely(w: World, s: State, id: nat, fate: J.Fate)
    requires JournalKept(s) && RowsKept(w, s) && PrefixesKnown(w, s) && Begun(s)
    requires id in s.ops && AtWrite(s.ops[id]) && s.ops[id].request.Reject? && Writes(s, s.ops[id], fate)
    requires OpFresh(w, s, s.ops[id]) && HolderQuiet(s, s.ops[id])
    ensures forall p :: 0 <= p < |s.j.records| && PrefixOf(s.j.records[p], s.ops[id].command) ==> RanIntoFence(s.j.records, p)
    ensures forall e :: Holds(s, e, s.ops[id].command) ==> e == s.ops[id].request.leaseEpoch || Dead(s.j, e)
  {
    var op := s.ops[id];
    LandedOnWhatItRead(w, s, id, fate);
    var r, app := op.stage.row.record, op.stage.app;
    var seen, key := s.j.records[..app.capturedTip], KeyOf(r, w.parse);
    forall p | 0 <= p < |s.j.records| && PrefixOf(s.j.records[p], op.command) ensures RanIntoFence(s.j.records, p) {
      ScanSawEveryPrefix(w, s, op, p);
      NoEffectIsDurable(seen, s.j.records, key, p);
    }
    if Recovering(r, op.now) {
      var f := FenceAbove(seen, r.claim.leaseEpoch);
      assert s.j.authors[f] > r.claim.leaseEpoch;
    }
  }

  lemma OldRejectionStaysSafe(w: World, s: State, id: nat, fate: J.Fate, c: Text)
    requires id in s.ops && AtWrite(s.ops[id]) && OpFresh(w, s, s.ops[id]) && Begun(s)
    requires c in s.rows && s.rows[c].record.state == Rejected && RejectionSafe(s, c)
    ensures RejectionSafe(Commits(s, id, fate), c)
  {
    var t := Commits(s, id, fate);
    CommitKeepsHolds(w, s, id, fate);
    CommitLeavesLedger(w, s, id, fate);
    forall e | Holds(t, e, c) ensures (e in t.hosts && c in t.hosts[e].abandoned) || Dead(t.j, e) {
      if BeginsNow(s, id, fate, e, c) { LandedOnWhatItRead(w, s, id, fate); }
    }
  }

  lemma NewRejectionIsSafe(w: World, s: State, id: nat, fate: J.Fate)
    requires JournalKept(s) && RowsKept(w, s) && PrefixesKnown(w, s) && Begun(s)
    requires id in s.ops && AtWrite(s.ops[id]) && s.ops[id].request.Reject? && Writes(s, s.ops[id], fate)
    requires OpsFresh(w, s) && HolderQuiet(s, s.ops[id])
    ensures RejectionSafe(Commits(s, id, fate), s.ops[id].command)
  {
    var t, op := Commits(s, id, fate), s.ops[id];
    CommitKeepsHolds(w, s, id, fate);
    RejectionLandsSafely(w, s, id, fate);
    forall e | Holds(t, e, op.command) ensures (e in t.hosts && op.command in t.hosts[e].abandoned) || Dead(t.j, e) {
      assert Holds(s, e, op.command);
      if won :| WonBy(s, won, e, op.command) { assert OpFresh(w, s, s.ops[won]); }
    }
  }

  lemma CommitKeepsRejections(w: World, s: State, id: nat, fate: J.Fate)
    requires JournalKept(s) && RowsKept(w, s) && PrefixesKnown(w, s) && Begun(s) && RejectionsSafe(s)
    requires id in s.ops && AtWrite(s.ops[id]) && OpsFresh(w, s) && HolderQuiet(s, s.ops[id])
    ensures RejectionsSafe(Commits(s, id, fate))
  {
    var t, op := Commits(s, id, fate), s.ops[id];
    if Writes(s, op, fate) { LandedOnWhatItRead(w, s, id, fate); }
    forall c | c in t.rows && t.rows[c].record.state == Rejected ensures RejectionSafe(t, c) {
      if s.rows[c].record.state == Rejected {
        OldRejectionStaysSafe(w, s, id, fate, c);
      } else {
        NewRejectionIsSafe(w, s, id, fate);
      }
    }
  }

  lemma CompletionNamesEffect(w: World, s: State, op: Op)
    requires EffectsReal(s) && OpFresh(w, s, op) && AtWrite(op) && op.request.Complete? && DecisionOf(op).Ok?
    requires HonestCompletion(s, op, op.stage.row) && op.stage.row.record.commandID == op.command
    ensures EffectAt(s.j.records, op.command, op.request.result.journalSeq, op.request.result.eventID)
  {
    var r := op.stage.row.record;
    if op.request.leaseEpoch == r.claim.leaseEpoch {
      var x := (op.command, op.request.result.journalSeq as nat, op.request.result.eventID);
      assert x in s.hosts[op.request.leaseEpoch].effects;
    } else {
      EffectTheScanFound(s.j.records, op.stage.app.capturedTip, KeyOf(r, w.parse), op.stage.app);
    }
  }

  lemma CommitKeepsApplications(w: World, s: State, id: nat, fate: J.Fate)
    requires RowsKept(w, s) && EffectsReal(s) && ApplicationsReal(s)
    requires id in s.ops && AtWrite(s.ops[id]) && OpFresh(w, s, s.ops[id])
    requires HonestCompletion(s, s.ops[id], s.ops[id].stage.row)
    ensures ApplicationsReal(Commits(s, id, fate))
  {
    var op := s.ops[id];
    if Writes(s, op, fate) {
      LandedOnWhatItRead(w, s, id, fate);
      if op.request.Complete? { CompletionNamesEffect(w, s, op); }
    }
  }

  /** What a committed correlation names is in the journal. */
  lemma EffectTheScanFound(records: seq<Envelope>, tip: nat, key: CommandKey, app: CommandApplication)
    requires tip <= |records| && app == Correlate(records[..tip], key) && app.finding.outcome == Committed
    ensures EffectAt(records, key.commandID, app.finding.effectSeq, app.finding.effectEventID)
  {
    var seen := records[..tip];
    BestMeaning(seen, key, |seen|);
    var p: nat :| Leads(seen, key, |seen|, p, app.finding);
    assert Names(seen[p], key);
  }

  lemma CommitKeepsRows(w: World, s: State, id: nat, fate: J.Fate)
    requires RowsKept(w, s) && id in s.ops && AtWrite(s.ops[id]) && OpFresh(w, s, s.ops[id])
    ensures RowsKept(w, Commits(s, id, fate))
  {
    if Writes(s, s.ops[id], fate) { LandedOnWhatItRead(w, s, id, fate); }
  }

  lemma CommitKeepsOps(w: World, s: State, id: nat, fate: J.Fate)
    requires |s.j.authors| == |s.j.records| && OpsFresh(w, s) && HoldersQuiet(s)
    requires id in s.ops && AtWrite(s.ops[id])
    ensures OpsFresh(w, Commits(s, id, fate)) && HoldersQuiet(Commits(s, id, fate))
  {
    CommitLeavesLedger(w, s, id, fate);
    UntouchedKeepsOps(w, s, Commits(s, id, fate));
  }

  lemma CommitKeepsInv(w: World, s: State, id: nat, fate: J.Fate)
    requires Inv(w, s) && Enabled(w, s, Commit(id, fate))
    ensures Inv(w, Apply(w, s, Commit(id, fate)))
  {
    assert OpFresh(w, s, s.ops[id]) && HolderQuiet(s, s.ops[id]);
    CommitLeavesLedger(w, s, id, fate);
    UntouchedKeepsJournal(w, s, Commits(s, id, fate));
    CommitKeepsOps(w, s, id, fate);
    CommitKeepsRows(w, s, id, fate);
    CommitKeepsHolds(w, s, id, fate);
    CommitKeepsRejections(w, s, id, fate);
    CommitKeepsApplications(w, s, id, fate);
  }

  lemma LedgerKeepsInv(w: World, s: State, ja: J.Action)
    requires Inv(w, s) && Enabled(w, s, Ledger(ja))
    ensures Inv(w, Apply(w, s, Ledger(ja)))
  {
    var t := Apply(w, s, Ledger(ja));
    LedgerGrows(w, s, ja);
    GrowthKeepsPrefixes(w, s, t);
    LedgerKeepsOpens(w, s, ja);
    LedgerKeepsEffects(w, s, ja);
    GrowthKeepsHolds(w, s, t);
    GrowthKeepsRejections(w, s, t);
    GrowthKeepsApplications(w, s, t);
    GrowthKeepsOps(w, s, t);
  }

  lemma InvStep(w: World, s: State, a: Action)
    requires Inv(w, s) && Enabled(w, s, a)
    ensures Inv(w, Apply(w, s, a))
  {
    match a
    case Ledger(ja) => LedgerKeepsInv(w, s, ja);
    case Commit(id, fate) => CommitKeepsInv(w, s, id, fate);
    case Learn(id) => LearnKeepsInv(w, s, id);
    case _ => OpStepKeepsInv(w, s, a);
  }

  lemma {:induction false} EveryRunKeepsInv(w: World, run: seq<Action>)
    requires After(w, run).Some?
    ensures Inv(w, After(w, run).value)
  {
    if run != [] {
      EveryRunKeepsInv(w, run[..|run| - 1]);
      InvStep(w, After(w, run[..|run| - 1]).value, run[|run| - 1]);
    }
  }

  // ---- what a run never undoes -------------------------------------------------------

  ghost predicate RowExtends(r: InboxRecord, t: InboxRecord) {
    && SameAdmission(r, t)
    && StatusRank(r.state) <= StatusRank(t.state)
    && r.claim.leaseEpoch <= t.claim.leaseEpoch
    && (r.state.Terminal() ==> t == r)
  }

  /** Records are only appended, and commands only move forward: what admission
      fixed stays, status and claim epoch never fall, a settled record is final. */
  ghost predicate Extends(s: State, t: State) {
    && s.j.records <= t.j.records
    && forall c :: c in s.rows ==> c in t.rows && RowExtends(s.rows[c].record, t.rows[c].record)
  }

  lemma StepExtends(w: World, s: State, a: Action)
    requires J.Inv(s.j) && OpsFresh(w, s) && Enabled(w, s, a)
    ensures Extends(s, Apply(w, s, a))
  {
    match a
    case Ledger(ja) => J.InvStep(s.j, ja);
    case Commit(id, fate) =>
      if Writes(s, s.ops[id], fate) {
        assert OpFresh(w, s, s.ops[id]);
        LandedOnWhatItRead(w, s, id, fate);
      }
    case _ =>
  }

  lemma ExtendsIsTransitive(s: State, t: State, u: State)
    requires Extends(s, t) && Extends(t, u)
    ensures Extends(s, u)
  {
    forall c | c in s.rows ensures c in u.rows && RowExtends(s.rows[c].record, u.rows[c].record) {
      assert c in t.rows;
    }
  }

  lemma {:induction false} RunExtends(w: World, run: seq<Action>, n: nat)
    requires n <= |run| && After(w, run).Some?
    ensures After(w, run[..n]).Some? && Extends(After(w, run[..n]).value, After(w, run).value)
    decreases |run|
  {
    if n == |run| {
      assert run[..n] == run;
    } else {
      var front := run[..|run| - 1];
      RunExtends(w, front, n);
      assert front[..n] == run[..n];
      EveryRunKeepsInv(w, front);
      StepExtends(w, After(w, front).value, run[|run| - 1]);
      ExtendsIsTransitive(After(w, run[..n]).value, After(w, front).value, After(w, run).value);
    }
  }

  // ---- the theorems over runs ----------------------------------------------------------

  predicate Stands(s: State, c: Text, state: InboxState) { c in s.rows && s.rows[c].record.state == state }

  /** In every run, a command whose record is rejected at any moment has no effect
      in the journal at any moment, earlier or later. */
  lemma RejectedNeverHasAnEffect(w: World, run: seq<Action>, n: nat, k: nat, c: Text, seqNo: nat, eventID: Text)
    requires n <= |run| && k <= |run| && After(w, run).Some?
    requires After(w, run[..n]).Some? && Stands(After(w, run[..n]).value, c, Rejected)
    ensures After(w, run[..k]).Some? && !EffectAt(After(w, run[..k]).value.j.records, c, seqNo, eventID)
  {
    EveryRunKeepsInv(w, run);
    RunExtends(w, run, n);
    RunExtends(w, run, k);
    var last, moment := After(w, run).value, After(w, run[..k]).value;
    assert RejectionSafe(last, c);
    assert forall p :: 0 <= p < |moment.j.records| && PrefixOf(moment.j.records[p], c) ==> RanIntoFence(last.j.records, p);
  }

  /** In every run, a command recorded applied has the effect it names in the
      journal from that moment on, and stays applied, naming that effect. */
  lemma AppliedKeepsItsEffect(w: World, run: seq<Action>, n: nat, k: nat, c: Text)
    requires n <= k <= |run| && After(w, run).Some?
    requires After(w, run[..n]).Some? && Stands(After(w, run[..n]).value, c, Applied)
    ensures After(w, run[..k]).Some?
    ensures var moment, result := After(w, run[..k]).value, After(w, run[..n]).value.rows[c].record.result;
            && c in moment.rows && moment.rows[c].record == After(w, run[..n]).value.rows[c].record
            && EffectAt(moment.j.records, c, result.journalSeq, result.eventID)
  {
    RunExtends(w, run, k);
    assert run[..k][..n] == run[..n];
    RunExtends(w, run[..k], n);
    EveryRunKeepsInv(w, run[..k]);
  }

  /** Settled both ways never happens, at any two moments of a run. */
  lemma SettlementsExclude(w: World, run: seq<Action>, n: nat, k: nat, c: Text)
    requires n <= |run| && k <= |run| && After(w, run).Some?
    requires After(w, run[..n]).Some? && Stands(After(w, run[..n]).value, c, Applied)
    ensures After(w, run[..k]).Some? && !Stands(After(w, run[..k]).value, c, Rejected)
  {
    RunExtends(w, run, n);
    RunExtends(w, run, k);
  }

  /** A retried admission with the stored content is the stored command at every
      later moment, and is answered with the identities of the first winner; the
      status the public sees never moves back. */
  lemma RetryMeetsTheFirstWinner(w: World, run: seq<Action>, n: nat, c: Text, retry: InboxRecord)
    requires n <= |run| && After(w, run).Some?
    requires After(w, run[..n]).Some? && c in After(w, run[..n]).value.rows
    ensures c in After(w, run).value.rows
    ensures var first, stored := After(w, run[..n]).value.rows[c].record, After(w, run).value.rows[c].record;
            && stored.(state := first.state, claim := first.claim, result := first.result, rejection := first.rejection) == first
            && (SameContent(first, retry) <==> SameContent(stored, retry))
            && stored.runtimeCommandID == first.runtimeCommandID && stored.applyDeadline == first.applyDeadline
            && StatusRank(first.state) <= StatusRank(stored.state)
            && PublicRank(CommandStatus(first)) <= PublicRank(CommandStatus(stored))
            && (CommandStatus(stored) == StatusAccepted <==> stored.state == Pending)
            && (CommandStatus(stored) == StatusApplied <==> stored.state == Applied)
            && (CommandStatus(stored) == StatusRejected <==> stored.state == Rejected)
  {
    RunExtends(w, run, n);
  }

  // ---- recovery is conclusive -----------------------------------------------------------

  /** Once a fence above the claim is in the journal, each of the command's
      prefixes correlates, follows no other prefix, and has been answered. */
  lemma PrefixIsAnswered(w: World, s: State, c: Text, f: nat, p: nat)
    requires JournalKept(s) && PrefixesKnown(w, s) && Begun(s) && Adjacent(s)
    requires c in s.rows && f < |s.j.records| && s.j.records[f].IsFence()
    requires s.j.records[f].leaseEpoch > s.rows[c].record.claim.leaseEpoch
    requires p < |s.j.records| && PrefixOf(s.j.records[p], c)
    ensures var found := FindingAt(s.j.records, KeyOf(s.rows[c].record, w.parse), p).outcome;
            found == Abandoned || found == Committed
  {
    var e := s.j.authors[p];
    assert PrefixKnown(w, s, p);
    assert Holds(s, e, c);
    assert s.j.authors[f] > e;
    assert J.StampedBy(s.j.records[p], e);
    if p > 0 && s.j.records[p - 1].IsPrefix() { assert false; }
    if s.j.records[p + 1].IsFence() {
      var start := J.BlockStart(s.j.records, s.j.authors, p);
      assert s.j.authors[start] != s.j.authors[p + 1];
    }
  }

  /** Once any higher grant's opening fence is in the journal, a scan for a begun
      command finds it absent, abandoned or committed: never in doubt. */
  lemma RecoveryIsConclusive(w: World, run: seq<Action>, c: Text, f: nat)
    requires After(w, run).Some?
    requires var s := After(w, run).value;
             && c in s.rows && f < |s.j.records| && s.j.records[f].IsFence()
             && s.j.records[f].leaseEpoch > s.rows[c].record.claim.leaseEpoch
    ensures var s := After(w, run).value;
            var app := Correlate(s.j.records, KeyOf(s.rows[c].record, w.parse));
            && app.Fences(s.rows[c].record.claim.leaseEpoch)
            && (app.finding.outcome == Absent || app.finding.outcome == Abandoned || app.finding.outcome == Committed)
  {
    EveryRunKeepsInv(w, run);
    var s := After(w, run).value;
    ScanMeaning(s.j.records, KeyOf(s.rows[c].record, w.parse));
    NotConflicted(w, s, c, f);
  }

  /** No conforming applying record is stuck. After its claim has lapsed and a
      higher grant has fenced the journal, exactly one settlement is open to that
      grant: completion, naming the effect that is there, or rejection. */
  lemma ExactlyOneSettlementIsOpen(w: World, run: seq<Action>, c: Text, f: nat, e: uint64, now: Instant,
                                   rejection: Text, result: CommandResult)
    requires After(w, run).Some?
    requires var s := After(w, run).value;
             && Stands(s, c, Applying) && f < |s.j.records| && s.j.records[f].IsFence() && s.j.records[f].leaseEpoch == e
             && s.rows[c].record.claim.leaseEpoch < e && s.rows[c].record.claim.expiresAt <= now
    ensures var s := After(w, run).value;
            var row := s.rows[c];
            var app := Correlate(s.j.records, KeyOf(row.record, w.parse));
            var completed := Decide(row.record, row.revision, Complete(row.revision, e, result), now, app);
            var rejected := Decide(row.record, row.revision, Reject(row.revision, e, rejection), now, app);
            && (completed.Ok? <==> EffectAt(s.j.records, c, result.journalSeq, result.eventID) &&
                                   result.journalSeq == app.finding.effectSeq)
            && (rejected.Ok? <==> !AnyEffect(s.j.records, c))
            && (rejected.Ok? <==> app.finding.effectSeq == 0)
  {
    EveryRunKeepsInv(w, run);
    RecoveryIsConclusive(w, run, c, f);
    var s := After(w, run).value;
    EffectsOfTheCommand(w, s, c, f);
    LapsedSettlements(s.rows[c].record, s.rows[c].revision, e, now,
                      Correlate(s.j.records, KeyOf(s.rows[c].record, w.parse)), rejection, result);
  }

  /** What a conclusive scan leaves open to a higher epoch once the claim lapses. */
  lemma LapsedSettlements(r: InboxRecord, revision: nat, e: uint64, now: Instant, app: CommandApplication,
                          rejection: Text, result: CommandResult)
    requires r.state == Applying && r.claim.leaseEpoch < e && r.claim.expiresAt <= now && revision > 0
    requires app.Fences(r.claim.leaseEpoch) && (app.ProvesNoEffect() || app.finding.outcome == Committed)
    ensures Decide(r, revision, Complete(revision, e, result), now, app).Ok? <==>
              app.NamesEffect(result.eventID, result.journalSeq)
    ensures Decide(r, revision, Reject(revision, e, rejection), now, app).Ok? <==> app.finding.outcome != Committed
  {
  }

  ghost predicate AnyEffect(records: seq<Envelope>, c: Text) {
    exists seqNo, eventID :: EffectAt(records, c, seqNo, eventID)
  }

  /** Under such a fence the scan's finding is the truth about the journal: it
      names an effect that is there, or there is none. */
  lemma EffectsOfTheCommand(w: World, s: State, c: Text, f: nat)
    requires JournalKept(s) && RowsKept(w, s) && PrefixesKnown(w, s) && Begun(s) && Adjacent(s)
    requires c in s.rows && f < |s.j.records| && s.j.records[f].IsFence()
    requires s.j.records[f].leaseEpoch > s.rows[c].record.claim.leaseEpoch
    ensures var found := Correlate(s.j.records, KeyOf(s.rows[c].record, w.parse)).finding;
            && (found.outcome == Committed <==> AnyEffect(s.j.records, c))
            && (found.outcome == Committed <==> found.effectSeq != 0)
            && (found.outcome == Committed ==>
                  forall id :: EffectAt(s.j.records, c, found.effectSeq, id) <==> id == found.effectEventID)
  {
    var key := KeyOf(s.rows[c].record, w.parse);
    var app := Correlate(s.j.records, key);
    ScanMeaning(s.j.records, key);
    if app.finding.outcome == Committed {
      assert s.j.records[..|s.j.records|] == s.j.records;
      EffectTheScanFound(s.j.records, |s.j.records|, key, app);
    } else {
      NotConflicted(w, s, c, f);
      NoEffectMeansNone(w, s, c, f);
    }
  }

  lemma NotConflicted(w: World, s: State, c: Text, f: nat)
    requires JournalKept(s) && RowsKept(w, s) && PrefixesKnown(w, s) && Begun(s) && Adjacent(s)
    requires c in s.rows && f < |s.j.records| && s.j.records[f].IsFence()
    requires s.j.records[f].leaseEpoch > s.rows[c].record.claim.leaseEpoch
    ensures var found := Correlate(s.j.records, KeyOf(s.rows[c].record, w.parse)).finding.outcome;
            found == Absent || found == Abandoned || found == Committed
  {
    var key := KeyOf(s.rows[c].record, w.parse);
    ScanMeaning(s.j.records, key);
    if !Unnamed(s.j.records, key, |s.j.records|) {
      var p: nat :| Leads(s.j.records, key, |s.j.records|, p, Best(s.j.records, key, |s.j.records|));
      PrefixIsAnswered(w, s, c, f, p);
    }
  }

  lemma AnEffectIsFound(w: World, s: State, c: Text, f: nat, p: nat)
    requires JournalKept(s) && RowsKept(w, s) && PrefixesKnown(w, s) && Begun(s) && Adjacent(s)
    requires c in s.rows && f < |s.j.records| && s.j.records[f].IsFence()
    requires s.j.records[f].leaseEpoch > s.rows[c].record.claim.leaseEpoch
    requires p + 1 < |s.j.records| && PrefixOf(s.j.records[p], c) && s.j.records[p + 1].IsPublicEvent()
    ensures FindingAt(s.j.records, KeyOf(s.rows[c].record, w.parse), p).outcome == Committed
    ensures Names(s.j.records[p], KeyOf(s.rows[c].record, w.parse))
  {
    PrefixIsAnswered(w, s, c, f, p);
  }

  lemma BestOverCommitted(records: seq<Envelope>, key: CommandKey, p: nat)
    requires p < |records| && Names(records[p], key) && FindingAt(records, key, p).outcome == Committed
    ensures Precedence(Best(records, key, |records|).outcome) >= Precedence(Committed)
  {
    var best := Best(records, key, |records|);
    BestMeaning(records, key, |records|);
    var leader: nat :| Leads(records, key, |records|, leader, best);
    assert Yields(records, key, p, leader, best);
  }

  lemma NoEffectMeansNone(w: World, s: State, c: Text, f: nat)
    requires JournalKept(s) && RowsKept(w, s) && PrefixesKnown(w, s) && Begun(s) && Adjacent(s)
    requires c in s.rows && f < |s.j.records| && s.j.records[f].IsFence()
    requires s.j.records[f].leaseEpoch > s.rows[c].record.claim.leaseEpoch
    requires Precedence(Correlate(s.j.records, KeyOf(s.rows[c].record, w.parse)).finding.outcome) < Precedence(Committed)
    ensures !AnyEffect(s.j.records, c)
  {
    if seqNo: nat, eventID :| EffectAt(s.j.records, c, seqNo, eventID) {
      AnEffectIsFound(w, s, c, f, seqNo - 2);
      BestOverCommitted(s.j.records, KeyOf(s.rows[c].record, w.parse), seqNo - 2);
    }
  }
}
