/** Opens and resolves of one disposition session's gates, every provider write a
    step of its own, any of them dropped between two. The machine is what the code
    allows, whatever its callers do; every gate in it has passed validation. What
    callers owe for the deadline to be durable before the gate is public, and to
    outlive it, is `Quiet`; exactly when it is lost is `Loses`. */
module GateProtocol {
  import opened Wrappers
  import opened Bytes
  import opened Clock
  import opened Storage
  import opened Gates

  datatype OpenStage =
    | OpenStarted
    | OpenRead(cat: Catalog)
    | IntentMet(cat: Catalog, row: IntentRow, next: GateIntent)
    | IntentDone(cat: Catalog)

  datatype ResolveStage =
    | ResolveStarted
    | ResolveRead(cat: Catalog)
    | Cleared
    | IntentSeen(revision: nat)

  datatype Op =
    | Opening(gate: Gate, grant: nat, reading: Instant, o: OpenStage)
    | Resolving(id: Text, grant: nat, r: ResolveStage)
  {
    function GateID(): Text { if Opening? then gate.gateID else id }
  }

  datatype State = State(cat: Catalog, intents: Rows<GateIntent>, ops: map<nat, Op>)

  datatype Action =
    | StartOpen(op: nat, gate: Gate, grant: nat, reading: Instant)
    | StartResolve(op: nat, id: Text, grant: nat)
    | ReadRecord(op: nat)
    | TouchIntent(op: nat)
    | Restamp(op: nat)
    | Project(op: nat)
    | SeeIntent(op: nat)
    | Retire(op: nat)
    | Crash(op: nat)

  const INITIAL := State(Catalog(0, [], 1), map[], map[])

  predicate Enabled(s: State, a: Action) {
    match a
    case StartOpen(k, _, _, _) => k !in s.ops
    case StartResolve(k, _, _) => k !in s.ops
    case ReadRecord(k) => k in s.ops && (if s.ops[k].Opening? then s.ops[k].o.OpenStarted? else s.ops[k].r.ResolveStarted?)
    case TouchIntent(k) => k in s.ops && s.ops[k].Opening? && s.ops[k].o.OpenRead?
    case Restamp(k) => k in s.ops && s.ops[k].Opening? && s.ops[k].o.IntentMet?
    case Project(k) => k in s.ops && (if s.ops[k].Opening? then s.ops[k].o.IntentDone? else s.ops[k].r.ResolveRead?)
    case SeeIntent(k) => k in s.ops && s.ops[k].Resolving? && s.ops[k].r.Cleared?
    case Retire(k) => k in s.ops && s.ops[k].Resolving? && s.ops[k].r.IntentSeen?
    case Crash(k) => k in s.ops
  }

  function Ended(s: State, k: nat): State { s.(ops := s.ops - {k}) }

  /** The record read, and the fence and the plan decided on it, or the call refused. */
  function AfterRead(s: State, k: nat): State
    requires k in s.ops
  {
    var op := s.ops[k];
    if op.Opening? then
      if PlanOpen(s.cat, op.gate, op.grant).Err? then Ended(s, k) else s.(ops := s.ops[k := op.(o := OpenRead(s.cat))])
    else if op.grant < s.cat.mark then Ended(s, k)
    else s.(ops := s.ops[k := op.(r := ResolveRead(s.cat))])
  }

  function AfterTouch(s: State, k: nat): State
    requires k in s.ops && s.ops[k].Opening? && s.ops[k].o.OpenRead?
  {
    var op := s.ops[k];
    var id := op.gate.gateID;
    if id !in s.intents then
      s.(intents := s.intents[id := Row(GateIntent(op.gate, op.reading), 1, Unranked, GateDue(op.gate.deadline), |s.intents| + 1, false)],
         ops := s.ops[k := op.(o := IntentDone(op.o.cat))])
    else
      var met := Meet(s.intents[id], op.gate, op.reading);
      if met.Err? then Ended(s, k)
      else if met.value.None? then s.(ops := s.ops[k := op.(o := IntentDone(op.o.cat))])
      else s.(ops := s.ops[k := op.(o := IntentMet(op.o.cat, s.intents[id], met.value.value))])
  }

  function AfterRestamp(s: State, k: nat): State
    requires k in s.ops && s.ops[k].Opening? && s.ops[k].o.IntentMet?
  {
    var op := s.ops[k];
    var moved := Swapped(s.intents, op.gate.gateID, op.o.row.revision, op.o.next, Unranked, GateDue(op.gate.deadline));
    if moved.Err? then Ended(s, k)
    else s.(intents := moved.value, ops := s.ops[k := op.(o := IntentDone(op.o.cat))])
  }

  /** A compare-and-swap of the record, onto the revision that was read. */
  function WriteCatalog(s: State, read: Catalog, mark: nat, gates: seq<Gate>): Option<State> {
    var stored := CanonicalOrder(gates);
    if stored.Err? || s.cat.revision != read.revision then None
    else Some(s.(cat := Catalog(mark, stored.value, read.revision + 1)))
  }

  function FenceWithoutChange(s: State, read: Catalog, mark: nat): Option<State> {
    if mark <= read.mark then Some(s) else WriteCatalog(s, read, mark, read.gates)
  }

  function Projected(s: State, k: nat): Option<State>
    requires k in s.ops && (if s.ops[k].Opening? then s.ops[k].o.IntentDone? else s.ops[k].r.ResolveRead?)
  {
    var op := s.ops[k];
    if op.Opening? then
      if PlanOpen(op.o.cat, op.gate, op.grant) == Ok(Replay) then FenceWithoutChange(s, op.o.cat, op.grant)
      else WriteCatalog(s, op.o.cat, op.grant, op.o.cat.gates + [op.gate])
    else if Names(op.r.cat.gates, op.id) then WriteCatalog(s, op.r.cat, op.grant, Without(op.r.cat.gates, op.id))
    else FenceWithoutChange(s, op.r.cat, op.grant)
  }

  function AfterProject(s: State, k: nat): State
    requires k in s.ops && (if s.ops[k].Opening? then s.ops[k].o.IntentDone? else s.ops[k].r.ResolveRead?)
  {
    var op := s.ops[k];
    var written := Projected(s, k);
    if written.None? || op.Opening? then Ended(if written.Some? then written.value else s, k)
    else written.value.(ops := s.ops[k := op.(r := Cleared)])
  }

  function AfterSee(s: State, k: nat): State
    requires k in s.ops && s.ops[k].Resolving? && s.ops[k].r.Cleared?
  {
    var op := s.ops[k];
    if op.id !in s.intents || s.intents[op.id].deleted then Ended(s, k)
    else s.(ops := s.ops[k := op.(r := IntentSeen(s.intents[op.id].revision))])
  }

  function AfterRetire(s: State, k: nat): State
    requires k in s.ops && s.ops[k].Resolving? && s.ops[k].r.IntentSeen?
  {
    var buried := Buried(s.intents, s.ops[k].id, s.ops[k].r.revision);
    Ended(if buried.Ok? then s.(intents := buried.value) else s, k)
  }

  function Apply(s: State, a: Action): State
    requires Enabled(s, a)
  {
    match a
    case StartOpen(k, g, grant, reading) => s.(ops := s.ops[k := Opening(g, grant, reading, OpenStarted)])
    case StartResolve(k, id, grant) => s.(ops := s.ops[k := Resolving(id, grant, ResolveStarted)])
    case ReadRecord(k) => AfterRead(s, k)
    case TouchIntent(k) => AfterTouch(s, k)
    case Restamp(k) => AfterRestamp(s, k)
    case Project(k) => AfterProject(s, k)
    case SeeIntent(k) => AfterSee(s, k)
    case Retire(k) => AfterRetire(s, k)
    case Crash(k) => Ended(s, k)
  }

  function After(run: seq<Action>): Option<State> {
    if run == [] then Some(INITIAL)
    else
      var before := After(run[..|run| - 1]);
      if before.Some? && Enabled(before.value, run[|run| - 1]) then Some(Apply(before.value, run[|run| - 1])) else None
  }

  // ---- what every run keeps, whatever its callers do ---------------------------------------

  ghost predicate IntentLive(s: State, g: Gate) { g.gateID in s.intents && Live(s.intents[g.gateID], g) }

  /** Every projected gate has its own live intent, filed due at its deadline. */
  ghost predicate Covered(s: State) { forall g :: g in s.cat.gates ==> IntentLive(s, g) }

  ghost predicate IntentsFiled(s: State) {
    forall id :: id in s.intents ==>
      s.intents[id].value.gate.gateID == id && (!s.intents[id].deleted ==> Live(s.intents[id], s.intents[id].value.gate))
  }

  /** The gate's own intent row is there, live or buried. */
  ghost predicate IntentMade(s: State, g: Gate) { g.gateID in s.intents && s.intents[g.gateID].value.gate == g }

  /** No gate is ever projected without an intent of its own having been made. */
  ghost predicate Backed(s: State) { forall g :: g in s.cat.gates ==> IntentMade(s, g) }

  ghost predicate ReadFresh(s: State, read: Catalog) {
    read.revision <= s.cat.revision && (read.revision == s.cat.revision ==> read == s.cat) && read.mark <= s.cat.mark
  }

  ghost predicate OpenKept(s: State, op: Op)
    requires op.Opening?
  {
    && (!op.o.OpenStarted? ==> ReadFresh(s, op.o.cat) && PlanOpen(op.o.cat, op.gate, op.grant).Ok?)
    && (op.o.IntentMet? || op.o.IntentDone? ==> IntentMade(s, op.gate))
    && (op.o.IntentMet? ==> op.o.next.gate == op.gate && op.o.next.recordedAt >= op.reading && MetRow(s, op))
    && (op.o.IntentDone? ==> s.intents[op.gate.gateID].value.recordedAt >= op.reading)
  }

  ghost predicate MetRow(s: State, op: Op)
    requires op.Opening? && op.o.IntentMet?
  {
    && op.gate.gateID in s.intents && op.o.row.revision <= s.intents[op.gate.gateID].revision
    && (op.o.row.revision == s.intents[op.gate.gateID].revision ==> s.intents[op.gate.gateID] == op.o.row)
    && op.o.next.recordedAt >= op.o.row.value.recordedAt
  }

  ghost predicate ResolveKept(s: State, op: Op)
    requires op.Resolving?
  {
    && (op.r.ResolveRead? ==> ReadFresh(s, op.r.cat) && op.r.cat.mark <= op.grant)
    && (op.r.IntentSeen? ==> op.id in s.intents && op.r.revision <= s.intents[op.id].revision)
  }

  ghost predicate OpKept(s: State, op: Op) { if op.Opening? then OpenKept(s, op) else ResolveKept(s, op) }

  ghost predicate OpsKept(s: State) { forall k :: k in s.ops ==> OpKept(s, s.ops[k]) }

  ghost predicate Inv(s: State) { GatesGood(s.cat.gates) && Backed(s) && IntentsFiled(s) && OpsKept(s) }

  // ---- one catalog write ------------------------------------------------------------------

  /** What a catalog write may leave: a good projection, no lower mark, and at most
      the opened gate added. */
  ghost predicate Wrote(s: State, t: State, op: Op) {
    && t.intents == s.intents && t.ops == s.ops && GatesGood(t.cat.gates)
    && op.grant <= t.cat.mark && s.cat.mark <= t.cat.mark
    && s.cat.revision <= t.cat.revision && (s.cat.revision == t.cat.revision ==> t.cat == s.cat)
    && (forall g :: g in t.cat.gates ==> g in s.cat.gates || (op.Opening? && g == op.gate))
  }

  lemma WriteOutcome(s: State, k: nat)
    requires k in s.ops && OpKept(s, s.ops[k]) && GatesGood(s.cat.gates)
    requires if s.ops[k].Opening? then s.ops[k].o.IntentDone? else s.ops[k].r.ResolveRead?
    ensures Projected(s, k).Some? ==> Wrote(s, Projected(s, k).value, s.ops[k])
  {
    if Projected(s, k).Some? {
      if s.ops[k].Opening? { OpenWrites(s, k); } else { ResolveWrites(s, k); }
    }
  }

  lemma OpenWrites(s: State, k: nat)
    requires k in s.ops && s.ops[k].Opening? && OpenKept(s, s.ops[k]) && GatesGood(s.cat.gates)
    requires s.ops[k].o.IntentDone? && Projected(s, k).Some?
    ensures Wrote(s, Projected(s, k).value, s.ops[k])
  {
    var op := s.ops[k];
    var plan := PlanOpen(op.o.cat, op.gate, op.grant).value;
    match plan
    case Append => OpenAppends(s, op.o.cat, op);
    case Replay => FenceWrites(s, op.o.cat, op);
  }

  lemma OpenAppends(s: State, read: Catalog, op: Op)
    requires op.Opening? && ReadFresh(s, read) && GatesGood(s.cat.gates) && PlanOpen(read, op.gate, op.grant) == Ok(Append)
    requires read.revision == s.cat.revision
    ensures WriteCatalog(s, read, op.grant, read.gates + [op.gate]).Some?
    ensures Wrote(s, WriteCatalog(s, read, op.grant, read.gates + [op.gate]).value, op)
    ensures op.gate in WriteCatalog(s, read, op.grant, read.gates + [op.gate]).value.cat.gates
    ensures !Names(s.cat.gates, op.gate.gateID)
  {
    ClashMeaning(read.gates, op.gate);
    AppendStaysGood(s.cat.gates, op.gate);
  }

  lemma FenceWrites(s: State, read: Catalog, op: Op)
    requires ReadFresh(s, read) && GatesGood(s.cat.gates) && read.mark <= op.grant
    requires FenceWithoutChange(s, read, op.grant).Some?
    ensures Wrote(s, FenceWithoutChange(s, read, op.grant).value, op)
    ensures FenceWithoutChange(s, read, op.grant).value.cat.gates == s.cat.gates
  {
    SortedStays(read.gates, s.cat);
  }

  lemma ResolveWrites(s: State, k: nat)
    requires k in s.ops && s.ops[k].Resolving? && ResolveKept(s, s.ops[k]) && GatesGood(s.cat.gates)
    requires s.ops[k].r.ResolveRead? && Projected(s, k).Some?
    ensures Wrote(s, Projected(s, k).value, s.ops[k])
    ensures Names(s.ops[k].r.cat.gates, s.ops[k].id) ==> !Names(Projected(s, k).value.cat.gates, s.ops[k].id)
  {
    var op := s.ops[k];
    if Names(op.r.cat.gates, op.id) {
      WithoutStaysGood(s.cat.gates, op.id);
      WithoutMeaning(s.cat.gates, op.id);
      SortedIsFixed(Without(s.cat.gates, op.id));
    } else {
      FenceWrites(s, op.r.cat, op);
    }
  }

  lemma SortedStays(gates: seq<Gate>, cat: Catalog)
    requires GatesGood(cat.gates)
    ensures gates == cat.gates ==> CanonicalOrder(gates) == Ok(gates)
  {
    SortedIsFixed(cat.gates);
  }

  // ---- step by step -----------------------------------------------------------------------------

  /** What one step may do to the two stores, as the other operations see it. */
  ghost predicate StoresMove(s: State, t: State, acting: Op) {
    && s.cat.mark <= t.cat.mark && s.cat.revision <= t.cat.revision
    && (s.cat.revision == t.cat.revision ==> s.cat == t.cat)
    && (forall g :: g in t.cat.gates ==> g in s.cat.gates || (acting.Opening? && g == acting.gate))
    && (forall id :: id in s.intents ==> id in t.intents && RowMoves(s.intents[id], t.intents[id], id, acting))
  }

  ghost predicate RowMoves(row: IntentRow, next: IntentRow, id: Text, acting: Op) {
    && row.value.gate == next.value.gate && row.value.recordedAt <= next.value.recordedAt
    && row.revision <= next.revision && (row.revision == next.revision ==> row == next)
    && (row.deleted ==> next == row)
    && (!row.deleted && next.deleted ==> acting.Resolving? && acting.id == id)
    && (!next.deleted ==> row.due == next.due && row.rank == next.rank)
  }

  lemma NamesOnlyWhatWasNamed(s: State, t: State, acting: Op, id: Text)
    requires StoresMove(s, t, acting) && !Names(s.cat.gates, id) && !(acting.Opening? && acting.gate.gateID == id)
    ensures !Names(t.cat.gates, id)
  {
    forall i | 0 <= i < |t.cat.gates| ensures t.cat.gates[i].gateID != id {
      assert t.cat.gates[i] in t.cat.gates;
    }
  }

  lemma OthersKept(s: State, t: State, acting: Op, op: Op)
    requires StoresMove(s, t, acting) && OpKept(s, op)
    ensures OpKept(t, op)
  {
  }

  lemma StoresMoveInProject(s: State, k: nat)
    requires k in s.ops && OpKept(s, s.ops[k]) && GatesGood(s.cat.gates) && Enabled(s, Project(k))
    ensures StoresMove(s, AfterProject(s, k), s.ops[k]) && GatesGood(AfterProject(s, k).cat.gates)
    ensures AfterProject(s, k).intents == s.intents
  {
    WriteOutcome(s, k);
  }

  lemma StoresMoveInIntents(s: State, a: Action)
    requires Enabled(s, a) && (a.TouchIntent? || a.Restamp? || a.Retire?)
    requires IntentsFiled(s) && OpKept(s, s.ops[a.op])
    ensures StoresMove(s, Apply(s, a), s.ops[a.op]) && IntentsFiled(Apply(s, a)) && Apply(s, a).cat == s.cat
  {
  }

  lemma ActorKept(s: State, a: Action)
    requires Enabled(s, a) && !a.StartOpen? && !a.StartResolve? && GatesGood(s.cat.gates) && IntentsFiled(s) && OpKept(s, s.ops[a.op])
    ensures var t := Apply(s, a); a.op in t.ops ==> OpKept(t, t.ops[a.op])
  {
    if a.Project? { WriteOutcome(s, a.op); }
  }

  lemma SameCallAfter(s: State, a: Action)
    requires Enabled(s, a) && !a.StartOpen? && !a.StartResolve?
    ensures var t := Apply(s, a);
            && t.ops.Keys <= s.ops.Keys && (forall k :: k in t.ops && k != a.op ==> t.ops[k] == s.ops[k])
            && (a.op in t.ops ==> SameCall(s.ops[a.op], t.ops[a.op]))
  {
  }

  lemma StepMoves(s: State, a: Action)
    requires GatesGood(s.cat.gates) && IntentsFiled(s) && Enabled(s, a) && !a.StartOpen? && !a.StartResolve? && OpKept(s, s.ops[a.op])
    ensures var t := Apply(s, a);
            && StoresMove(s, t, s.ops[a.op]) && GatesGood(t.cat.gates) && IntentsFiled(t)
            && t.ops.Keys <= s.ops.Keys && (forall k :: k in t.ops && k != a.op ==> t.ops[k] == s.ops[k])
            && (a.op in t.ops ==> SameCall(s.ops[a.op], t.ops[a.op]))
  {
    SameCallAfter(s, a);
    if a.Project? { StoresMoveInProject(s, a.op); }
    if a.TouchIntent? || a.Restamp? || a.Retire? { StoresMoveInIntents(s, a); }
  }

  predicate SameCall(op: Op, next: Op) {
    && op.Opening? == next.Opening? && op.GateID() == next.GateID() && op.grant == next.grant
    && (op.Opening? ==> op.gate == next.gate && op.reading == next.reading)
  }

  lemma BackedStep(s: State, a: Action)
    requires Backed(s) && GatesGood(s.cat.gates) && IntentsFiled(s) && Enabled(s, a) && !a.StartOpen? && !a.StartResolve?
    requires OpKept(s, s.ops[a.op])
    ensures Backed(Apply(s, a))
  {
    StepMoves(s, a);
    var t := Apply(s, a);
    forall g | g in t.cat.gates ensures IntentMade(t, g) {
      if g in s.cat.gates { assert IntentMade(s, g); }
    }
  }

  lemma InvStep(s: State, a: Action)
    requires Inv(s) && Enabled(s, a)
    ensures Inv(Apply(s, a))
  {
    var t := Apply(s, a);
    if a.StartOpen? || a.StartResolve? {
      forall k | k in t.ops ensures OpKept(t, t.ops[k]) {
        if k != a.op { assert OpKept(s, s.ops[k]); }
      }
    } else {
      assert OpKept(s, s.ops[a.op]);
      StepMoves(s, a);
      BackedStep(s, a);
      ActorKept(s, a);
      forall k | k in t.ops ensures OpKept(t, t.ops[k]) {
        if k != a.op { OthersKept(s, t, s.ops[a.op], s.ops[k]); }
      }
    }
  }

  lemma {:induction false} EveryRunKeepsInv(run: seq<Action>)
    requires After(run).Some?
    ensures Inv(After(run).value)
  {
    if run != [] {
      EveryRunKeepsInv(run[..|run| - 1]);
      InvStep(After(run[..|run| - 1]).value, run[|run| - 1]);
    }
  }

  lemma {:induction false} PrefixesRun(run: seq<Action>, n: nat)
    requires n <= |run| && After(run).Some?
    ensures After(run[..n]).Some?
    ensures n < |run| ==>
              && Enabled(After(run[..n]).value, run[n]) && After(run[..n + 1]) == Some(Apply(After(run[..n]).value, run[n]))
    decreases |run|
  {
    if n == |run| {
      assert run[..n] == run;
    } else {
      var front := run[..|run| - 1];
      assert run[..n + 1][..n] == run[..n];
      if n < |front| {
        PrefixesRun(front, n);
        assert front[..n] == run[..n] && front[..n + 1] == run[..n + 1];
      } else {
        assert run[..n + 1] == run && front == run[..n];
      }
    }
  }

  // ---- exactly when a deadline is lost -----------------------------------------------------------

  /** A resolve's delete that the provider accepts. */
  predicate Buries(s: State, a: Action) {
    Enabled(s, a) && a.Retire? && Buried(s.intents, s.ops[a.op].id, s.ops[a.op].r.revision).Ok?
  }

  /** The two steps that cost a projected gate its deadline: a live intent is buried
      while its gate is projected, or a gate is projected over a buried intent. */
  predicate Loses(s: State, a: Action) {
    || (Buries(s, a) && Names(s.cat.gates, s.ops[a.op].id))
    || (&& Enabled(s, a) && a.Project? && s.ops[a.op].Opening?
        && PlanOpen(s.ops[a.op].o.cat, s.ops[a.op].gate, s.ops[a.op].grant) == Ok(Append) && Projected(s, a.op).Some?
        && s.ops[a.op].gate.gateID in s.intents && s.intents[s.ops[a.op].gate.gateID].deleted)
  }

  lemma RetireLosesExactlyWhen(s: State, a: Action)
    requires Inv(s) && Covered(s) && Enabled(s, a) && a.Retire?
    ensures Covered(Apply(s, a)) <==> !Loses(s, a)
  {
    var t, id := Apply(s, a), s.ops[a.op].id;
    if Loses(s, a) {
      var i :| 0 <= i < |s.cat.gates| && s.cat.gates[i].gateID == id;
      assert s.cat.gates[i] in t.cat.gates && !IntentLive(t, s.cat.gates[i]);
    } else {
      forall g | g in t.cat.gates ensures IntentLive(t, g) {
        assert IntentLive(s, g);
        var i :| 0 <= i < |s.cat.gates| && s.cat.gates[i] == g;
        assert g.gateID == id ==> Names(s.cat.gates, id);
      }
    }
  }

  lemma ProjectLosesExactlyWhen(s: State, a: Action)
    requires Inv(s) && Covered(s) && Enabled(s, a) && a.Project?
    ensures Covered(Apply(s, a)) <==> !Loses(s, a)
  {
    var t, op := Apply(s, a), s.ops[a.op];
    assert OpKept(s, op);
    WriteOutcome(s, a.op);
    if op.Opening? && Projected(s, a.op).Some? {
      var plan := PlanOpen(op.o.cat, op.gate, op.grant).value;
      match plan
      case Append => OpenAppends(s, op.o.cat, op);
      case Replay => FenceWrites(s, op.o.cat, op);
    }
    if Loses(s, a) {
      assert op.gate in t.cat.gates && !IntentLive(t, op.gate);
    } else {
      forall g | g in t.cat.gates ensures IntentLive(t, g) {
        if g in s.cat.gates { assert IntentLive(s, g); }
      }
    }
  }

  /** One step from a covered state leaves it covered if and only if it is not one of
      the two that lose a deadline. */
  lemma StepLosesExactlyWhen(s: State, a: Action)
    requires Inv(s) && Covered(s) && Enabled(s, a)
    ensures Covered(Apply(s, a)) <==> !Loses(s, a)
  {
    match a
    case Retire(_) => RetireLosesExactlyWhen(s, a);
    case Project(_) => ProjectLosesExactlyWhen(s, a);
    case TouchIntent(_) => MoveKeepsCoverage(s, a);
    case Restamp(_) => MoveKeepsCoverage(s, a);
    case _ =>
      forall g | g in s.cat.gates ensures IntentLive(Apply(s, a), g) { assert IntentLive(s, g); }
  }

  lemma MoveKeepsCoverage(s: State, a: Action)
    requires Inv(s) && Covered(s) && Enabled(s, a) && (a.TouchIntent? || a.Restamp?)
    ensures Covered(Apply(s, a))
  {
    assert OpKept(s, s.ops[a.op]);
    StoresMoveInIntents(s, a);
    forall g | g in Apply(s, a).cat.gates ensures IntentLive(Apply(s, a), g) { assert IntentLive(s, g); }
  }

  ghost predicate CoveredThroughout(run: seq<Action>) {
    forall n :: 0 <= n <= |run| ==> CoveredAt(run, n)
  }

  ghost predicate CoveredAt(run: seq<Action>, n: nat)
    requires n <= |run|
  {
    After(run[..n]).Some? ==> Covered(After(run[..n]).value)
  }

  ghost predicate LosesAt(run: seq<Action>, n: nat)
    requires n < |run|
  {
    After(run[..n]).Some? && Loses(After(run[..n]).value, run[n])
  }

  lemma {:induction false} CoveredUpTo(run: seq<Action>, n: nat)
    requires After(run).Some? && n <= |run| && forall i :: 0 <= i < n ==> !LosesAt(run, i)
    ensures CoveredAt(run, n)
  {
    if n == 0 {
      assert run[..0] == [];
    } else {
      CoveredUpTo(run, n - 1);
      PrefixesRun(run, n - 1);
      EveryRunKeepsInv(run[..n - 1]);
      assert !LosesAt(run, n - 1);
      StepLosesExactlyWhen(After(run[..n - 1]).value, run[n - 1]);
    }
  }

  /** Over any run, whatever its callers do: every projected gate has its deadline at
      every moment if and only if no step of the run is one of those two. */
  lemma CoveredThroughoutExactlyWhen(run: seq<Action>)
    requires After(run).Some?
    ensures CoveredThroughout(run) <==> forall n :: 0 <= n < |run| ==> !LosesAt(run, n)
  {
    if forall n :: 0 <= n < |run| ==> !LosesAt(run, n) {
      forall n | 0 <= n <= |run| ensures CoveredAt(run, n) { CoveredUpTo(run, n); }
    }
    if CoveredThroughout(run) {
      forall n | 0 <= n < |run| ensures !LosesAt(run, n) {
        PrefixesRun(run, n);
        EveryRunKeepsInv(run[..n]);
        assert CoveredAt(run, n) && CoveredAt(run, n + 1);
        StepLosesExactlyWhen(After(run[..n]).value, run[n]);
      }
    }
  }

  // ---- what callers owe ------------------------------------------------------------------------------

  /** An open that has met its gate's intent and has not finished. */
  predicate PastIntent(op: Op, id: Text) { op.Opening? && op.gate.gateID == id && (op.o.IntentMet? || op.o.IntentDone?) }

  /** The obligation: no resolve, however old its reading of the record, buries a gate's
      intent once an open of that gate has met it, while that open is in flight or
      after it has projected the gate. */
  ghost predicate Quiet(s: State, a: Action) {
    Buries(s, a) ==>
      !Names(s.cat.gates, s.ops[a.op].id) && forall j :: j in s.ops ==> !PastIntent(s.ops[j], s.ops[a.op].id)
  }

  ghost predicate QuietAt(run: seq<Action>, n: nat)
    requires n < |run|
  {
    After(run[..n]).Some? ==> Quiet(After(run[..n]).value, run[n])
  }

  ghost predicate QuietRun(run: seq<Action>) { forall n :: 0 <= n < |run| ==> QuietAt(run, n) }

  /** Every open past its intent still has it. */
  ghost predicate OpensHaveIntents(s: State) {
    forall k :: k in s.ops && s.ops[k].Opening? && PastIntent(s.ops[k], s.ops[k].gate.gateID) ==> IntentLive(s, s.ops[k].gate)
  }

  lemma QuietNeverLoses(s: State, a: Action)
    requires Inv(s) && OpensHaveIntents(s) && Enabled(s, a) && Quiet(s, a)
    ensures !Loses(s, a)
  {
  }

  lemma QuietStep(s: State, a: Action)
    requires Inv(s) && OpensHaveIntents(s) && Enabled(s, a) && Quiet(s, a)
    ensures OpensHaveIntents(Apply(s, a))
  {
    var t := Apply(s, a);
    if !a.StartOpen? && !a.StartResolve? {
      assert OpKept(s, s.ops[a.op]);
      StepMoves(s, a);
      forall k | k in t.ops && t.ops[k].Opening? && PastIntent(t.ops[k], t.ops[k].gate.gateID) ensures IntentLive(t, t.ops[k].gate) {
        assert OpKept(s, s.ops[k]);
      }
    }
  }

  lemma {:induction false} QuietRunsKeepIntents(run: seq<Action>)
    requires After(run).Some? && QuietRun(run)
    ensures OpensHaveIntents(After(run).value) && forall n :: 0 <= n < |run| ==> !LosesAt(run, n)
  {
    if run != [] {
      var front := run[..|run| - 1];
      forall n | 0 <= n < |front| ensures QuietAt(front, n) {
        assert front[..n] == run[..n] && QuietAt(run, n);
      }
      QuietRunsKeepIntents(front);
      EveryRunKeepsInv(front);
      assert QuietAt(run, |front|);
      QuietStep(After(front).value, run[|front|]);
      QuietNeverLoses(After(front).value, run[|front|]);
      forall n | 0 <= n < |run| ensures !LosesAt(run, n) {
        if n < |front| { assert front[..n] == run[..n] && !LosesAt(front, n); }
      }
    }
  }

  /** Wherever a quiet run is cut, between any two provider writes: every projected
      gate has its own live intent, due at its deadline; the projection is bounded,
      each name and event once, in ascending order. */
  lemma NoGateWithoutADeadline(run: seq<Action>, g: Gate)
    requires After(run).Some? && QuietRun(run) && g in After(run).value.cat.gates
    ensures var s := After(run).value;
            && g.gateID in s.intents && !s.intents[g.gateID].deleted && s.intents[g.gateID].value.gate == g
            && s.intents[g.gateID].due == GateDue(g.deadline)
            && GatesGood(s.cat.gates)
  {
    EveryRunKeepsInv(run);
    QuietRunsKeepIntents(run);
    CoveredUpTo(run, |run|);
    assert run[..|run|] == run;
    assert IntentLive(After(run).value, g);
  }

  // ---- calls kept apart are quiet -------------------------------------------------------------------

  /** The simplest way to be quiet: no resolve of a gate overlaps an open of that gate. */
  ghost predicate StartsApart(s: State, a: Action) {
    && (a.StartOpen? ==> forall k :: k in s.ops && s.ops[k].GateID() == a.gate.gateID ==> s.ops[k].Opening?)
    && (a.StartResolve? ==> forall k :: k in s.ops && s.ops[k].GateID() == a.id ==> s.ops[k].Resolving?)
  }

  ghost predicate StartsApartAt(run: seq<Action>, n: nat)
    requires n < |run|
  {
    After(run[..n]).Some? ==> StartsApart(After(run[..n]).value, run[n])
  }

  ghost predicate CallsApart(run: seq<Action>) { forall n :: 0 <= n < |run| ==> StartsApartAt(run, n) }

  ghost predicate Apart(s: State) {
    forall j, k :: j in s.ops && k in s.ops && s.ops[j].GateID() == s.ops[k].GateID() ==> s.ops[j].Opening? == s.ops[k].Opening?
  }

  /** A resolve that found its gate unprojected, or cleared it, leaves it so. */
  ghost predicate ClearedStays(s: State, op: Op) {
    op.Resolving? && (op.r.Cleared? || op.r.IntentSeen? || (op.r.ResolveRead? && !Names(op.r.cat.gates, op.id))) ==>
      !Names(s.cat.gates, op.id)
  }

  ghost predicate ResolvesClear(s: State) { forall k :: k in s.ops ==> ClearedStays(s, s.ops[k]) }

  lemma ResolverClears(s: State, a: Action)
    requires Inv(s) && Enabled(s, a) && !a.StartOpen? && !a.StartResolve? && s.ops[a.op].Resolving? && ClearedStays(s, s.ops[a.op])
    ensures var t := Apply(s, a); a.op in t.ops ==> ClearedStays(t, t.ops[a.op])
  {
    var op := s.ops[a.op];
    assert OpKept(s, op);
    if a.Project? && Projected(s, a.op).Some? {
      ResolveWrites(s, a.op);
      if !Names(op.r.cat.gates, op.id) { FenceWrites(s, op.r.cat, op); }
    }
  }

  lemma BystanderClears(s: State, a: Action, k: nat)
    requires Inv(s) && Apart(s) && Enabled(s, a) && !a.StartOpen? && !a.StartResolve?
    requires k in s.ops && k != a.op && s.ops[k].Resolving? && ClearedStays(s, s.ops[k])
    ensures ClearedStays(Apply(s, a), s.ops[k])
  {
    assert OpKept(s, s.ops[a.op]);
    StepMoves(s, a);
    if !Names(s.cat.gates, s.ops[k].id) { NamesOnlyWhatWasNamed(s, Apply(s, a), s.ops[a.op], s.ops[k].id); }
  }

  lemma ApartStart(s: State, a: Action)
    requires Apart(s) && ResolvesClear(s) && Enabled(s, a) && StartsApart(s, a) && (a.StartOpen? || a.StartResolve?)
    ensures Apart(Apply(s, a)) && ResolvesClear(Apply(s, a))
  {
    var t := Apply(s, a);
    forall k | k in t.ops ensures ClearedStays(t, t.ops[k]) {
      if k != a.op { assert ClearedStays(s, s.ops[k]); }
    }
  }

  lemma MovesClear(s: State, a: Action, k: nat)
    requires Inv(s) && Apart(s) && ResolvesClear(s) && Enabled(s, a) && !a.StartOpen? && !a.StartResolve?
    requires k in Apply(s, a).ops && Apply(s, a).ops[k].Resolving?
    ensures ClearedStays(Apply(s, a), Apply(s, a).ops[k])
  {
    assert OpKept(s, s.ops[a.op]) && ClearedStays(s, s.ops[a.op]);
    StepMoves(s, a);
    if k != a.op {
      assert ClearedStays(s, s.ops[k]);
      BystanderClears(s, a, k);
    } else {
      ResolverClears(s, a);
    }
  }

  lemma ApartStep(s: State, a: Action)
    requires Inv(s) && Apart(s) && ResolvesClear(s) && Enabled(s, a) && StartsApart(s, a)
    ensures Apart(Apply(s, a)) && ResolvesClear(Apply(s, a))
  {
    if a.StartOpen? || a.StartResolve? {
      ApartStart(s, a);
    } else {
      assert OpKept(s, s.ops[a.op]);
      StepMoves(s, a);
      forall k | k in Apply(s, a).ops && Apply(s, a).ops[k].Resolving? ensures ClearedStays(Apply(s, a), Apply(s, a).ops[k]) {
        MovesClear(s, a, k);
      }
    }
  }

  lemma ApartIsQuiet(s: State, a: Action)
    requires Apart(s) && ResolvesClear(s) && Enabled(s, a)
    ensures Quiet(s, a)
  {
    if Buries(s, a) { assert ClearedStays(s, s.ops[a.op]); }
  }

  lemma {:induction false} CallsApartAreQuiet(run: seq<Action>)
    requires After(run).Some? && CallsApart(run)
    ensures Apart(After(run).value) && ResolvesClear(After(run).value) && QuietRun(run)
  {
    if run != [] {
      var front := run[..|run| - 1];
      forall n | 0 <= n < |front| ensures StartsApartAt(front, n) {
        assert front[..n] == run[..n] && StartsApartAt(run, n);
      }
      CallsApartAreQuiet(front);
      EveryRunKeepsInv(front);
      assert StartsApartAt(run, |front|);
      ApartStep(After(front).value, run[|front|]);
      ApartIsQuiet(After(front).value, run[|front|]);
      forall n | 0 <= n < |run| ensures QuietAt(run, n) {
        if n < |front| { assert front[..n] == run[..n] && QuietAt(front, n); }
      }
    }
  }

  // ---- over every run ---------------------------------------------------------------------------------

  ghost predicate Later(s: State, t: State) {
    && s.cat.mark <= t.cat.mark && s.cat.revision <= t.cat.revision
    && forall id :: id in s.intents ==> id in t.intents && RowLater(s.intents[id], t.intents[id])
  }

  ghost predicate RowLater(row: IntentRow, next: IntentRow) {
    && next.value.gate == row.value.gate && row.value.recordedAt <= next.value.recordedAt
    && (row.deleted ==> next == row)
  }

  /** The residency mark and every recorded instant only rise, a gate's intent never
      changes which gate it is, and a tombstone is for good. */
  lemma {:induction false} MarksAndInstantsOnlyRise(run: seq<Action>, n: nat)
    requires n <= |run| && After(run).Some?
    ensures After(run[..n]).Some? && Later(After(run[..n]).value, After(run).value)
    decreases |run|
  {
    if n == |run| {
      assert run[..n] == run;
    } else {
      var front := run[..|run| - 1];
      assert front[..n] == run[..n];
      MarksAndInstantsOnlyRise(front, n);
      EveryRunKeepsInv(front);
      var s, a := After(front).value, run[|run| - 1];
      if !a.StartOpen? && !a.StartResolve? {
        assert OpKept(s, s.ops[a.op]);
        StepMoves(s, a);
      }
    }
  }

  /** Every projection any run can reach, whatever its callers do, can be published: at
      most sixteen gates, each name and each opening event once, in strictly ascending
      event order, and all at or below the tip its page reports. */
  lemma EveryProjectionIsPublishable(run: seq<Action>)
    requires After(run).Some?
    ensures var gates := After(run).value.cat.gates;
            && |gates| <= 16
            && (forall i, j :: 0 <= i < j < |gates| ==> gates[i].openedSeq < gates[j].openedSeq && gates[i].gateID != gates[j].gateID)
            && (forall i :: 0 <= i < |gates| ==> gates[i].openedSeq <= PageTip(gates))
            && (gates != [] ==> PageTip(gates) == gates[|gates| - 1].openedSeq)
  {
    EveryRunKeepsInv(run);
    PageTipMeaning(After(run).value.cat.gates);
  }

  /** A gate write that succeeds leaves the mark at or above its own grant, and its
      intent recorded at or after its own attempt's reading. */
  lemma SuccessRaisesTheMark(run: seq<Action>, k: nat)
    requires After(run).Some? && Enabled(After(run).value, Project(k)) && Projected(After(run).value, k).Some?
    ensures var s, t := After(run).value, Projected(After(run).value, k).value;
            && t.cat.mark >= s.ops[k].grant && t.cat.mark >= s.cat.mark
            && (s.ops[k].Opening? ==>
                  var g := s.ops[k].gate;
                  g.gateID in t.intents && t.intents[g.gateID].value.recordedAt >= s.ops[k].reading)
  {
    EveryRunKeepsInv(run);
    var s := After(run).value;
    assert OpKept(s, s.ops[k]);
    WriteOutcome(s, k);
  }

  // ---- a call that meets nobody ----------------------------------------------------------------------

  lemma OneMore(run: seq<Action>, a: Action, s: State) returns (longer: seq<Action>, t: State)
    requires After(run) == Some(s) && Enabled(s, a)
    ensures longer == run + [a] && t == Apply(s, a) && After(longer) == Some(t)
  {
    longer, t := run + [a], Apply(s, a);
    assert longer[..|run|] == run;
  }

  lemma {:induction false} FreshFrom(used: set<nat>, from: nat) returns (j: nat)
    ensures j >= from && j !in used
    decreases |used|
  {
    if from in used {
      j := FreshFrom(used - {from}, from + 1);
    } else {
      j := from;
    }
  }

  /** A resolve starts, and reads the record its grant is not behind. */
  lemma ResolveReads(run: seq<Action>, s: State, j: nat, id: Text, grant: nat) returns (longer: seq<Action>, t: State)
    requires After(run) == Some(s) && j !in s.ops && grant >= s.cat.mark
    ensures After(longer) == Some(t) && run <= longer && t == s.(ops := s.ops[j := Resolving(id, grant, ResolveRead(s.cat))])
  {
    longer, t := OneMore(run, StartResolve(j, id, grant), s);
    longer, t := OneMore(longer, ReadRecord(j), t);
  }

  /** An open that nothing overlaps: from any reachable state it can be run to a projected
      gate with its own live deadline, exactly one gate more than there was, wherever the
      record has room for it, its grant is not superseded and its intent is free. */
  lemma AnOpenAloneSucceeds(run: seq<Action>, s: State, g: Gate, grant: nat, reading: Instant) returns (longer: seq<Action>, t: State)
    requires After(run) == Some(s) && Openable((_: Gate) => true, s.cat, s.intents, g, grant) && Rankable(g.deadline)
    ensures After(longer) == Some(t) && run <= longer && t.ops == s.ops
    ensures t.cat.mark == grant && IntentLive(t, g) && t.intents[g.gateID].value.recordedAt >= reading
    ensures forall x :: x in t.cat.gates <==> x == g || x in s.cat.gates
  {
    EveryRunKeepsInv(run);
    var k := FreshFrom(s.ops.Keys, 0);
    PlanExactlyWhen(s.cat, g, grant);
    longer, t := OneMore(run, StartOpen(k, g, grant, reading), s);
    longer, t := OneMore(longer, ReadRecord(k), t);
    longer, t := IntentAlone(longer, t, k);
    longer, t := ProjectAlone(longer, t, s, k);
  }

  lemma IntentAlone(run: seq<Action>, s: State, k: nat) returns (longer: seq<Action>, t: State)
    requires After(run) == Some(s) && k in s.ops && s.ops[k].Opening? && s.ops[k].o == OpenRead(s.cat)
    requires var g := s.ops[k].gate; g.gateID in s.intents ==> !s.intents[g.gateID].deleted && s.intents[g.gateID].value.gate == g
    ensures After(longer) == Some(t) && run <= longer && t.cat == s.cat
    ensures t.ops == s.ops[k := s.ops[k].(o := IntentDone(s.cat))]
    ensures var g := s.ops[k].gate; IntentLive(t, g) && t.intents[g.gateID].value.recordedAt >= s.ops[k].reading
  {
    EveryRunKeepsInv(run);
    var g := s.ops[k].gate;
    if g.gateID in s.intents { MeetExactlyWhen(s.intents[g.gateID], g, s.ops[k].reading); }
    longer, t := OneMore(run, TouchIntent(k), s);
    if t.ops[k].o.IntentMet? {
      longer, t := OneMore(longer, Restamp(k), t);
    }
  }

  lemma FreshWriteLands(s: State, mark: nat, gates: seq<Gate>)
    requires GatesGood(gates)
    ensures WriteCatalog(s, s.cat, mark, gates) == Some(s.(cat := Catalog(mark, gates, s.cat.revision + 1)))
  {
    SortedIsFixed(gates);
  }

  lemma FreshFenceLands(s: State, mark: nat)
    requires GatesGood(s.cat.gates) && mark >= s.cat.mark
    ensures var t := FenceWithoutChange(s, s.cat, mark);
            t.Some? && t.value == s.(cat := t.value.cat) && t.value.cat.mark == mark && t.value.cat.gates == s.cat.gates
  {
    FreshWriteLands(s, mark, s.cat.gates);
  }

  /** The projection's write, on a record nobody has moved since it was read. */
  lemma ProjectsItsGate(s: State, k: nat)
    requires k in s.ops && s.ops[k].Opening? && s.ops[k].o == IntentDone(s.cat) && GatesGood(s.cat.gates)
    requires PlanOpen(s.cat, s.ops[k].gate, s.ops[k].grant).Ok?
    ensures Projected(s, k).Some?
    ensures var t, op := Projected(s, k).value, s.ops[k];
            && t.intents == s.intents && t.ops == s.ops && t.cat.mark == op.grant
            && forall x :: x in t.cat.gates <==> x == op.gate || x in s.cat.gates
  {
    var g, grant := s.ops[k].gate, s.ops[k].grant;
    PlanExactlyWhen(s.cat, g, grant);
    if g in s.cat.gates { FreshFenceLands(s, grant); } else { AppendStaysGood(s.cat.gates, g); }
  }

  lemma ClearsItsGate(s: State, k: nat)
    requires k in s.ops && s.ops[k].Resolving? && s.ops[k].r == ResolveRead(s.cat) && GatesGood(s.cat.gates) && s.ops[k].grant >= s.cat.mark
    ensures Projected(s, k).Some?
    ensures var t, op := Projected(s, k).value, s.ops[k];
            && t.intents == s.intents && t.ops == s.ops && t.cat.mark == op.grant && t.cat.gates == Without(s.cat.gates, op.id)
  {
    var id, grant := s.ops[k].id, s.ops[k].grant;
    if Names(s.cat.gates, id) {
      WithoutStaysGood(s.cat.gates, id);
      FreshWriteLands(s, grant, Without(s.cat.gates, id));
    } else {
      WithoutNothing(s.cat.gates, id);
      FreshFenceLands(s, grant);
    }
  }

  lemma ProjectAlone(run: seq<Action>, s: State, before: State, k: nat) returns (longer: seq<Action>, t: State)
    requires After(run) == Some(s) && k !in before.ops && k in s.ops && s.ops == before.ops[k := s.ops[k]]
    requires s.ops[k].Opening? && s.ops[k].o == IntentDone(s.cat) && PlanOpen(s.cat, s.ops[k].gate, s.ops[k].grant).Ok?
    ensures After(longer) == Some(t) && run <= longer && t.ops == before.ops && t.intents == s.intents
    ensures t.cat.mark == s.ops[k].grant && forall x :: x in t.cat.gates <==> x == s.ops[k].gate || x in s.cat.gates
  {
    EveryRunKeepsInv(run);
    ProjectsItsGate(s, k);
    longer, t := OneMore(run, Project(k), s);
    assert t.ops == before.ops;
  }

  /** And a resolve that nothing overlaps leaves the gate gone, its intent buried if it had
      one, and the mark at its grant. */
  lemma AResolveAloneSucceeds(run: seq<Action>, s: State, id: Text, grant: nat) returns (longer: seq<Action>, t: State)
    requires After(run) == Some(s) && grant >= s.cat.mark
    ensures After(longer) == Some(t) && run <= longer && t.ops == s.ops && t.cat.mark == grant
    ensures forall x :: x in t.cat.gates <==> x in s.cat.gates && x.gateID != id
    ensures id in t.intents ==> t.intents[id].deleted
  {
    EveryRunKeepsInv(run);
    var k := FreshFrom(s.ops.Keys, 0);
    longer, t := ResolveReads(run, s, k, id, grant);
    ClearsItsGate(t, k);
    WithoutMeaning(s.cat.gates, id);
    longer, t := OneMore(longer, Project(k), t);
    longer, t := RetireAlone(longer, t, s, k);
  }

  lemma RetireAlone(run: seq<Action>, s: State, before: State, k: nat) returns (longer: seq<Action>, t: State)
    requires After(run) == Some(s) && k !in before.ops && k in s.ops && s.ops == before.ops[k := s.ops[k]]
    requires s.ops[k].Resolving? && s.ops[k].r == Cleared
    ensures After(longer) == Some(t) && run <= longer && t.ops == before.ops && t.cat == s.cat
    ensures s.ops[k].id in t.intents ==> t.intents[s.ops[k].id].deleted
  {
    longer, t := OneMore(run, SeeIntent(k), s);
    if k in t.ops {
      longer, t := OneMore(longer, Retire(k), t);
    }
    assert t.ops == before.ops;
  }
}
