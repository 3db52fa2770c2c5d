/** What becomes of a gate whose intent is buried under its open, and how far a
    successor's fencing write reaches. A fence stops a predecessor's resolve by
    refusing its reading or by taking the revision from under its write; a resolve
    that has read already, and has nothing to write, meets neither. */
module GateFence {
  import opened Wrappers
  import opened Bytes
  import opened Clock
  import opened Storage
  import opened Gates
  import opened GateProtocol

  ghost predicate LostDeadline(s: State, g: Gate) { g in s.cat.gates && g.gateID in s.intents && s.intents[g.gateID].deleted }

  // ---- how an overlap ends -------------------------------------------------------------------

  /** Once a resolve has buried the intent of an open in flight past it, the open ends
      in one of these ways: refused at its re-stamp, if it had one to make; changing no
      gate, if it is a replay; projecting the gate with no deadline, if the record is
      the one it read; or refused at its projection, if the record has moved. */
  lemma BuriedUnderAnOpen(s: State, k: nat, j: nat)
    requires Inv(s) && Buries(s, Retire(k)) && j in s.ops && PastIntent(s.ops[j], s.ops[k].id)
    ensures var t, op := Apply(s, Retire(k)), s.ops[j];
            && j in t.ops && t.ops[j] == op && t.cat == s.cat
            && (if op.o.IntentMet? then Enabled(t, Restamp(j)) && Apply(t, Restamp(j)) == Ended(t, j)
                else && Enabled(t, Project(j))
                     && (if PlanOpen(op.o.cat, op.gate, op.grant) == Ok(Replay) then Apply(t, Project(j)).cat.gates == s.cat.gates
                         else if op.o.cat.revision == s.cat.revision then LostDeadline(Apply(t, Project(j)), op.gate)
                         else Projected(t, j).None? && Apply(t, Project(j)) == Ended(t, j)))
  {
    var t, op := Apply(s, Retire(k)), s.ops[j];
    assert OpKept(s, op);
    InvStep(s, Retire(k));
    assert OpKept(t, op);
    if op.o.IntentDone? {
      var plan := PlanOpen(op.o.cat, op.gate, op.grant).value;
      match plan
      case Replay => if Projected(t, j).Some? { FenceWrites(t, op.o.cat, op); }
      case Append => if op.o.cat.revision == s.cat.revision { OpenAppends(t, op.o.cat, op); }
    }
  }

  /** The gate is unprojected, its intent is buried, and every open of it that could
      still project it read a record that has since moved. */
  ghost predicate Barred(s: State, id: Text) {
    && id in s.intents && s.intents[id].deleted && !Names(s.cat.gates, id)
    && forall k :: k in s.ops ==> StaleIfDone(s, s.ops[k], id)
  }

  predicate StaleIfDone(s: State, op: Op, id: Text) {
    op.Opening? && op.gate.gateID == id && op.o.IntentDone? ==> op.o.cat.revision < s.cat.revision
  }

  lemma BarredActor(s: State, a: Action, id: Text)
    requires Inv(s) && Barred(s, id) && Enabled(s, a) && !a.StartOpen? && !a.StartResolve?
    ensures !Names(Apply(s, a).cat.gates, id)
    ensures a.op in Apply(s, a).ops ==> StaleIfDone(Apply(s, a), Apply(s, a).ops[a.op], id)
  {
    var op := s.ops[a.op];
    assert OpKept(s, op) && StaleIfDone(s, op, id);
    StepMoves(s, a);
    if op.Opening? && op.gate.gateID == id && a.Project? && Projected(s, a.op).Some? {
      FenceWrites(s, op.o.cat, op);
    } else if !(op.Opening? && op.gate.gateID == id) {
      NamesOnlyWhatWasNamed(s, Apply(s, a), op, id);
    }
  }

  lemma BarredStep(s: State, a: Action, id: Text)
    requires Inv(s) && Barred(s, id) && Enabled(s, a)
    ensures Barred(Apply(s, a), id)
  {
    var t := Apply(s, a);
    if a.StartOpen? || a.StartResolve? {
      forall k | k in t.ops ensures StaleIfDone(t, t.ops[k], id) {
        if k != a.op { assert StaleIfDone(s, s.ops[k], id); }
      }
    } else {
      assert OpKept(s, s.ops[a.op]);
      StepMoves(s, a);
      BarredActor(s, a, id);
      forall k | k in t.ops ensures StaleIfDone(t, t.ops[k], id) {
        if k != a.op { assert StaleIfDone(s, s.ops[k], id); }
      }
    }
  }

  /** A barred gate can never be published under its name: in every continuation it is
      unprojected, and every open of it that reaches the intent is refused there. */
  lemma {:induction false} BarredForGood(run: seq<Action>, n: nat, id: Text)
    requires n <= |run| && After(run).Some?
    requires After(run[..n]).Some? && Barred(After(run[..n]).value, id)
    ensures Barred(After(run).value, id)
    ensures forall k :: Enabled(After(run).value, TouchIntent(k)) && After(run).value.ops[k].gate.gateID == id ==>
              Apply(After(run).value, TouchIntent(k)) == Ended(After(run).value, k)
    decreases |run|
  {
    if n == |run| {
      assert run[..n] == run;
    } else {
      var front := run[..|run| - 1];
      assert front[..n] == run[..n];
      BarredForGood(front, n, id);
      EveryRunKeepsInv(front);
      BarredStep(After(front).value, run[|run| - 1], id);
    }
  }

  /** The record has moved since every open of this gate read it, and does not project it. */
  ghost predicate Overtaken(s: State, id: Text) {
    !Names(s.cat.gates, id) && forall k :: k in s.ops ==> StaleIfRead(s, s.ops[k], id)
  }

  predicate StaleIfRead(s: State, op: Op, id: Text) {
    op.Opening? && op.gate.gateID == id && !op.o.OpenStarted? ==> op.o.cat.revision < s.cat.revision
  }

  /** A resolve that writes the record, because it raised the mark or cleared the gate,
      overtakes every open of the gate that has read it. */
  lemma WritingResolveOvertakes(s: State, k: nat)
    requires Inv(s) && Enabled(s, Project(k)) && s.ops[k].Resolving? && Projected(s, k).Some?
    requires Names(s.ops[k].r.cat.gates, s.ops[k].id) || s.ops[k].grant > s.ops[k].r.cat.mark
    ensures Overtaken(Apply(s, Project(k)), s.ops[k].id)
  {
    var t, op := Apply(s, Project(k)), s.ops[k];
    assert OpKept(s, op);
    ResolveWrites(s, k);
    if !Names(op.r.cat.gates, op.id) { FenceWrites(s, op.r.cat, op); }
    forall j | j in t.ops ensures StaleIfRead(t, t.ops[j], op.id) {
      if j != k { assert OpKept(s, s.ops[j]); }
    }
  }

  predicate OpenReads(s: State, a: Action, id: Text) {
    a.ReadRecord? && a.op in s.ops && s.ops[a.op].Opening? && s.ops[a.op].gate.gateID == id
  }

  lemma OvertakenActor(s: State, a: Action, id: Text)
    requires Inv(s) && Overtaken(s, id) && Enabled(s, a) && !a.StartOpen? && !a.StartResolve? && !OpenReads(s, a, id)
    ensures !Names(Apply(s, a).cat.gates, id)
    ensures a.op in Apply(s, a).ops ==> StaleIfRead(Apply(s, a), Apply(s, a).ops[a.op], id)
  {
    var op := s.ops[a.op];
    assert OpKept(s, op) && StaleIfRead(s, op, id);
    StepMoves(s, a);
    if op.Opening? && op.gate.gateID == id && a.Project? && Projected(s, a.op).Some? {
      FenceWrites(s, op.o.cat, op);
    } else if !(op.Opening? && op.gate.gateID == id) {
      NamesOnlyWhatWasNamed(s, Apply(s, a), op, id);
    }
  }

  lemma OvertakenStep(s: State, a: Action, id: Text)
    requires Inv(s) && Overtaken(s, id) && Enabled(s, a) && !OpenReads(s, a, id)
    ensures Overtaken(Apply(s, a), id)
    ensures Buries(s, a) && s.ops[a.op].id == id ==> Barred(Apply(s, a), id)
  {
    var t := Apply(s, a);
    if a.StartOpen? || a.StartResolve? {
      forall k | k in t.ops ensures StaleIfRead(t, t.ops[k], id) {
        if k != a.op { assert StaleIfRead(s, s.ops[k], id); }
      }
    } else {
      assert OpKept(s, s.ops[a.op]);
      StepMoves(s, a);
      OvertakenActor(s, a, id);
      forall k | k in t.ops ensures StaleIfRead(t, t.ops[k], id) {
        if k != a.op { assert StaleIfRead(s, s.ops[k], id); }
      }
      forall k | k in t.ops ensures StaleIfDone(t, t.ops[k], id) { assert StaleIfRead(t, t.ops[k], id); }
    }
  }

  ghost predicate NoOpenReads(run: seq<Action>, n: nat, m: nat, id: Text) {
    forall i :: n <= i < m && i < |run| && After(run[..i]).Some? ==> !OpenReads(After(run[..i]).value, run[i], id)
  }

  lemma OvertakenOneMore(run: seq<Action>, i: nat, id: Text)
    requires i < |run| && After(run).Some? && After(run[..i]).Some? && Overtaken(After(run[..i]).value, id)
    requires !OpenReads(After(run[..i]).value, run[i], id)
    ensures After(run[..i + 1]).Some? && Overtaken(After(run[..i + 1]).value, id)
  {
    PrefixesRun(run, i);
    EveryRunKeepsInv(run[..i]);
    OvertakenStep(After(run[..i]).value, run[i], id);
  }

  lemma {:induction false} OvertakenUntil(run: seq<Action>, n: nat, m: nat, id: Text)
    requires n <= m <= |run| && After(run).Some? && NoOpenReads(run, n, m, id)
    requires After(run[..n]).Some? && Overtaken(After(run[..n]).value, id)
    ensures After(run[..m]).Some? && Overtaken(After(run[..m]).value, id)
    decreases m
  {
    if n < m {
      OvertakenUntil(run, n, m - 1, id);
      OvertakenOneMore(run, m - 1, id);
    }
  }

  /** Step `n` of the run is a resolve of `id` that writes the record. */
  ghost predicate ResolveWritesAt(run: seq<Action>, n: nat, id: Text)
    requires n < |run|
  {
    After(run[..n]).Some? &&
    var s, a := After(run[..n]).value, run[n];
    && a.Project? && Enabled(s, a) && s.ops[a.op].Resolving? && s.ops[a.op].id == id && Projected(s, a.op).Some?
    && (Names(s.ops[a.op].r.cat.gates, id) || s.ops[a.op].grant > s.ops[a.op].r.cat.mark)
  }

  /** Step `m` of the run buries the intent of `id`. */
  ghost predicate BuriesAt(run: seq<Action>, m: nat, id: Text)
    requires m < |run|
  {
    After(run[..m]).Some? && Buries(After(run[..m]).value, run[m]) && After(run[..m]).value.ops[run[m].op].id == id
  }

  lemma OvertakenByTheWrite(run: seq<Action>, n: nat, id: Text)
    requires n < |run| && After(run).Some? && ResolveWritesAt(run, n, id)
    ensures After(run[..n + 1]).Some? && Overtaken(After(run[..n + 1]).value, id)
  {
    PrefixesRun(run, n);
    EveryRunKeepsInv(run[..n]);
    WritingResolveOvertakes(After(run[..n]).value, run[n].op);
  }

  lemma BarredByTheBurial(run: seq<Action>, m: nat, id: Text)
    requires m < |run| && After(run).Some? && BuriesAt(run, m, id) && Overtaken(After(run[..m]).value, id)
    ensures After(run[..m + 1]).Some? && Barred(After(run[..m + 1]).value, id)
  {
    PrefixesRun(run, m);
    EveryRunKeepsInv(run[..m]);
    OvertakenStep(After(run[..m]).value, run[m], id);
  }

  lemma OvertakenThenBuried(run: seq<Action>, n: nat, m: nat, id: Text)
    requires n <= m < |run| && After(run).Some? && BuriesAt(run, m, id) && NoOpenReads(run, n, m, id)
    requires After(run[..n]).Some? && Overtaken(After(run[..n]).value, id)
    ensures Barred(After(run).value, id)
  {
    OvertakenUntil(run, n, m, id);
    BarredByTheBurial(run, m, id);
    BarredForGood(run, m + 1, id);
  }

  /** The second documented end, over any run: a resolve that wrote the record, and
      buries the intent before any open of the gate reads again, bars the gate: each
      open in flight conflicts or is refused, and so is every retry, for good. */
  lemma WrittenThenBuriedIsBarred(run: seq<Action>, n: nat, m: nat, id: Text)
    requires n < m < |run| && After(run).Some? && ResolveWritesAt(run, n, id) && BuriesAt(run, m, id)
    requires NoOpenReads(run, n + 1, m, id)
    ensures Barred(After(run).value, id)
  {
    OvertakenByTheWrite(run, n, id);
    OvertakenThenBuried(run, n + 1, m, id);
  }

  // ---- how far a fence reaches ------------------------------------------------------------------

  predicate Predecessor(op: Op, id: Text, mark: nat) { op.Resolving? && op.id == id && op.grant < mark }

  /** A resolve under a grant the mark has passed that cannot come to bury the intent:
      it has not read yet, or it has something to write onto a record that has moved,
      or the row it saw has been re-stamped since. */
  predicate Stopped(s: State, op: Op) {
    op.Resolving? &&
    match op.r
    case ResolveStarted => true
    case ResolveRead(read) => Names(read.gates, op.id) || op.grant > read.mark
    case Cleared => false
    case IntentSeen(revision) => op.id in s.intents && revision < s.intents[op.id].revision
  }

  ghost predicate AllStopped(s: State, id: Text, mark: nat) {
    forall k :: k in s.ops && Predecessor(s.ops[k], id, mark) ==> Stopped(s, s.ops[k])
  }

  predicate Tombstoned(s: State, id: Text) { id in s.intents && s.intents[id].deleted }

  /** A predecessor buries the gate's intent. */
  predicate BuriesUnder(s: State, a: Action, id: Text, mark: nat) { Buries(s, a) && Predecessor(s.ops[a.op], id, mark) }

  lemma StoppedStep(s: State, a: Action, id: Text, mark: nat)
    requires Inv(s) && s.cat.mark >= mark && AllStopped(s, id, mark) && Enabled(s, a)
    ensures Apply(s, a).cat.mark >= mark && AllStopped(Apply(s, a), id, mark)
  {
    if !a.StartOpen? && !a.StartResolve? {
      assert OpKept(s, s.ops[a.op]);
      StepMoves(s, a);
    }
  }

  lemma {:induction false} StoppedForGood(run: seq<Action>, n: nat, id: Text, mark: nat)
    requires n <= |run| && After(run).Some?
    requires After(run[..n]).Some? && After(run[..n]).value.cat.mark >= mark && AllStopped(After(run[..n]).value, id, mark)
    ensures After(run).value.cat.mark >= mark && AllStopped(After(run).value, id, mark)
    decreases |run|
  {
    if n == |run| {
      assert run[..n] == run;
    } else {
      var front := run[..|run| - 1];
      assert front[..n] == run[..n];
      StoppedForGood(front, n, id, mark);
      EveryRunKeepsInv(front);
      StoppedStep(After(front).value, run[|run| - 1], id, mark);
    }
  }

  /** In this continuation no predecessor buries the intent next. */
  ghost predicate ClosedAfter(run: seq<Action>, more: seq<Action>, id: Text, mark: nat) {
    After(run + more).Some? ==> forall a :: !BuriesUnder(After(run + more).value, a, id, mark)
  }

  lemma ClosedWhenStopped(run: seq<Action>, more: seq<Action>, id: Text, mark: nat)
    requires After(run).Some? && After(run).value.cat.mark >= mark
    requires AllStopped(After(run).value, id, mark) || Tombstoned(After(run).value, id)
    ensures ClosedAfter(run, more, id, mark)
  {
    if After(run + more).Some? {
      assert (run + more)[..|run|] == run;
      if Tombstoned(After(run).value, id) {
        MarksAndInstantsOnlyRise(run + more, |run|);
      } else {
        StoppedForGood(run + more, |run|, id, mark);
      }
    }
  }

  // ---- how a resolve that is not stopped comes to bury ------------------------------------------

  predicate ReadyToDelete(s: State, k: nat, id: Text, mark: nat) {
    k in s.ops && Predecessor(s.ops[k], id, mark) && s.ops[k].r.Cleared?
  }

  /** A resolve that starts now clears the oldest gate and may stop there. */
  lemma OneGateCleared(run: seq<Action>, s: State, k: nat, id: Text, mark: nat) returns (longer: seq<Action>, t: State)
    requires After(run) == Some(s) && ReadyToDelete(s, k, id, mark) && s.cat.gates != []
    ensures After(longer) == Some(t) && run <= longer && ReadyToDelete(t, k, id, mark) && t.intents == s.intents
    ensures t.cat.gates == Without(s.cat.gates, s.cat.gates[0].gateID)
  {
    EveryRunKeepsInv(run);
    var first := s.cat.gates[0].gateID;
    var j := FreshFrom(s.ops.Keys, 0);
    longer, t := ResolveReads(run, s, j, first, s.cat.mark);
    ClearsItsGate(t, j);
    longer, t := OneMore(longer, Project(j), t);
    assert t.ops[k] == s.ops[k];
  }

  /** So the projection can always be emptied under a waiting resolve. */
  lemma {:induction false} EmptiedProjection(run: seq<Action>, s: State, k: nat, id: Text, mark: nat) returns (longer: seq<Action>, t: State)
    requires After(run) == Some(s) && ReadyToDelete(s, k, id, mark)
    ensures After(longer) == Some(t) && run <= longer && ReadyToDelete(t, k, id, mark) && t.cat.gates == [] && t.intents == s.intents
    decreases |s.cat.gates|
  {
    longer, t := run, s;
    if s.cat.gates != [] {
      assert Names(s.cat.gates, s.cat.gates[0].gateID);
      WithoutShrinks(s.cat.gates, s.cat.gates[0].gateID);
      longer, t := OneGateCleared(run, s, k, id, mark);
      longer, t := EmptiedProjection(longer, t, k, id, mark);
    }
  }

  /** And an open can then file the gate's intent, if it was never filed. */
  lemma FiledForIt(run: seq<Action>, s: State, k: nat, id: Text, mark: nat) returns (longer: seq<Action>, t: State)
    requires After(run) == Some(s) && ReadyToDelete(s, k, id, mark) && s.cat.gates == [] && id !in s.intents
    ensures After(longer) == Some(t) && run <= longer && ReadyToDelete(t, k, id, mark)
    ensures id in t.intents && !t.intents[id].deleted
  {
    var j := FreshFrom(s.ops.Keys, 0);
    longer, t := OneMore(run, StartOpen(j, Gate(id, [], 1, 0), s.cat.mark, 0), s);
    longer, t := OneMore(longer, ReadRecord(j), t);
    longer, t := OneMore(longer, TouchIntent(j), t);
  }

  lemma SeenAndBuried(run: seq<Action>, s: State, k: nat, id: Text, mark: nat) returns (longer: seq<Action>)
    requires After(run) == Some(s) && ReadyToDelete(s, k, id, mark) && id in s.intents && !s.intents[id].deleted
    ensures After(longer).Some? && run <= longer && BuriesUnder(After(longer).value, Retire(k), id, mark)
  {
    var t: State;
    longer, t := OneMore(run, SeeIntent(k), s);
  }

  lemma DeletesInTheEnd(run: seq<Action>, s: State, k: nat, id: Text, mark: nat) returns (longer: seq<Action>)
    requires After(run) == Some(s) && ReadyToDelete(s, k, id, mark) && !Tombstoned(s, id)
    ensures After(longer).Some? && run <= longer && BuriesUnder(After(longer).value, Retire(k), id, mark)
  {
    var t := s;
    longer := run;
    if id !in s.intents {
      longer, t := EmptiedProjection(longer, t, k, id, mark);
      longer, t := FiledForIt(longer, t, k, id, mark);
    }
    longer := SeenAndBuried(longer, t, k, id, mark);
  }

  /** A resolve the fence does not stop buries the intent in some continuation: at once,
      or after its one remaining look, once an open has filed what it deletes. */
  lemma UnstoppedBuries(run: seq<Action>, k: nat, id: Text, mark: nat) returns (longer: seq<Action>)
    requires After(run).Some? && After(run).value.cat.mark >= mark && !Tombstoned(After(run).value, id)
    requires k in After(run).value.ops && Predecessor(After(run).value.ops[k], id, mark) && !Stopped(After(run).value, After(run).value.ops[k])
    ensures After(longer).Some? && run <= longer && BuriesUnder(After(longer).value, Retire(k), id, mark)
  {
    var s := After(run).value;
    EveryRunKeepsInv(run);
    assert OpKept(s, s.ops[k]);
    if s.ops[k].r.IntentSeen? {
      longer := run;
    } else {
      var t := s;
      longer := run;
      if s.ops[k].r.ResolveRead? {
        longer, t := OneMore(run, Project(k), s);
      }
      longer := DeletesInTheEnd(longer, t, k, id, mark);
    }
  }

  /** How far a fencing write reaches: once the mark has passed a predecessor's grant,
      no resolve of the gate under such a grant buries its intent in any continuation
      if and only if the intent is a tombstone already, or each such resolve in flight
      is stopped. One that read the gate unprojected under a mark equal to its own
      grant is not. */
  lemma FenceClosesTheWindowExactlyWhen(run: seq<Action>, id: Text, mark: nat)
    requires After(run).Some? && After(run).value.cat.mark >= mark
    ensures (forall more :: ClosedAfter(run, more, id, mark)) <==>
              Tombstoned(After(run).value, id) || AllStopped(After(run).value, id, mark)
  {
    var s := After(run).value;
    if Tombstoned(s, id) || AllStopped(s, id, mark) {
      forall more ensures ClosedAfter(run, more, id, mark) { ClosedWhenStopped(run, more, id, mark); }
    } else {
      var k :| k in s.ops && Predecessor(s.ops[k], id, mark) && !Stopped(s, s.ops[k]);
      var longer := UnstoppedBuries(run, k, id, mark);
      assert run + longer[|run|..] == longer;
      assert !ClosedAfter(run, longer[|run|..], id, mark);
    }
  }

  /** So behind a fence that closes it, only grants at or above the mark bury the gate's
      intent. */
  lemma BehindTheFenceOnlySuccessorsBury(run: seq<Action>, n: nat, i: nat, id: Text, mark: nat)
    requires n <= i < |run| && After(run).Some?
    requires After(run[..n]).Some? && After(run[..n]).value.cat.mark >= mark && AllStopped(After(run[..n]).value, id, mark)
    ensures After(run[..i]).Some?
    ensures Buries(After(run[..i]).value, run[i]) && After(run[..i]).value.ops[run[i].op].id == id ==>
              After(run[..i]).value.ops[run[i].op].grant >= mark
  {
    PrefixesRun(run, i);
    assert run[..n] + run[n..i] == run[..i];
    ClosedWhenStopped(run[..n], run[n..i], id, mark);
    assert !BuriesUnder(After(run[..i]).value, run[i], id, mark);
  }

  // ---- three runs from the empty session -----------------------------------------------------------

  function TheGate(): Gate { Gate([1], [], 1, 0) }

  function TheIntent(deleted: bool): IntentRow {
    Row(GateIntent(TheGate(), 0), if deleted then 2 else 1, Unranked, if deleted then NotDue else GateDue(0), 1, deleted)
  }

  function MarkedBy(grant: nat): Catalog { Catalog(grant, [], 1 + grant) }

  /** One fencing write: a resolve, from start to finish, of a name nobody opens. */
  lemma FencingWrite(run: seq<Action>, s: State) returns (longer: seq<Action>, t: State)
    requires After(run) == Some(s) && s.cat.gates == [] && 3 !in s.ops && [9] !in s.intents
    ensures After(longer) == Some(t) && t == s.(cat := Catalog(s.cat.mark + 1, [], s.cat.revision + 1)) && run <= longer
  {
    longer, t := ResolveReads(run, s, 3, [9], s.cat.mark + 1);
    assert Sorted([]) == [];
    longer, t := OneMore(longer, Project(3), t);
    longer, t := OneMore(longer, SeeIntent(3), t);
    assert t.ops == s.ops;
  }

  /** The predecessor, at the mark, has read the record and found nothing to clear. */
  lemma PredecessorHasRead() returns (run: seq<Action>, s: State)
    ensures After(run) == Some(s) && s == State(MarkedBy(1), map[], map[2 := Resolving([1], 1, ResolveRead(MarkedBy(1)))])
  {
    run, s := FencingWrite([], INITIAL);
    run, s := OneMore(run, StartResolve(2, [1], 1), s);
    run, s := OneMore(run, ReadRecord(2), s);
    assert s.ops == map[2 := Resolving([1], 1, ResolveRead(MarkedBy(1)))];
  }

  /** From a predecessor that has read: an open under `grant` files its intent. */
  lemma FiledUnderThePredecessor(run: seq<Action>, s: State, grant: nat) returns (longer: seq<Action>, t: State)
    requires After(run) == Some(s) && s == State(MarkedBy(grant), map[], map[2 := Resolving([1], 1, ResolveRead(MarkedBy(1)))])
    ensures After(longer) == Some(t)
    ensures t == s.(intents := map[[1] := TheIntent(false)], ops := s.ops[1 := Opening(TheGate(), grant, 0, IntentDone(MarkedBy(grant)))])
    ensures |run| < |longer| && longer[..|run|] == run && longer[|run|] == StartOpen(1, TheGate(), grant, 0)
  {
    longer, t := OneMore(run, StartOpen(1, TheGate(), grant, 0), s);
    longer, t := OneMore(longer, ReadRecord(1), t);
    longer, t := OneMore(longer, TouchIntent(1), t);
    assert t.intents == map[[1] := TheIntent(false)];
  }

  function FiledState(grant: nat): State {
    State(MarkedBy(grant), map[[1] := TheIntent(false)],
          map[1 := Opening(TheGate(), grant, 0, IntentDone(MarkedBy(grant))), 2 := Resolving([1], 1, ResolveRead(MarkedBy(1)))])
  }

  function BuriedState(grant: nat): State {
    State(MarkedBy(grant), map[[1] := TheIntent(true)], map[1 := Opening(TheGate(), grant, 0, IntentDone(MarkedBy(grant)))])
  }

  /** The predecessor, with nothing to write, buries it. */
  lemma BuriedWithoutAWrite(run: seq<Action>, grant: nat) returns (longer: seq<Action>)
    requires After(run) == Some(FiledState(grant))
    ensures After(longer) == Some(BuriedState(grant)) && |run| <= |longer| && longer[..|run|] == run
  {
    var s := FiledState(grant);
    longer, s := OneMore(run, Project(2), s);
    assert s.ops[2] == Resolving([1], 1, Cleared) && s.cat == MarkedBy(grant);
    longer, s := OneMore(longer, SeeIntent(2), s);
    longer, s := OneMore(longer, Retire(2), s);
    assert s.intents == map[[1] := TheIntent(true)];
    assert s.ops == BuriedState(grant).ops;
  }

  lemma ProjectedOverIt(grant: nat)
    ensures Enabled(BuriedState(grant), Project(1))
    ensures var t := Apply(BuriedState(grant), Project(1)); LostDeadline(t, TheGate()) && t.cat.mark == grant
  {
    assert Sorted([TheGate()]) == [TheGate()] by { assert [TheGate()][..0] == []; }
    assert PlanOpen(MarkedBy(grant), TheGate(), grant) == Ok(Append);
  }

  /** And the open projects the gate over it. */
  lemma BuriedThenProjected(run: seq<Action>, s: State, grant: nat) returns (longer: seq<Action>, t: State)
    requires After(run) == Some(s) && s == State(MarkedBy(grant), map[], map[2 := Resolving([1], 1, ResolveRead(MarkedBy(1)))])
    ensures After(longer) == Some(t) && LostDeadline(t, TheGate()) && t.cat.mark == grant
    ensures |run| < |longer| && longer[..|run|] == run && longer[|run|] == StartOpen(1, TheGate(), grant, 0)
  {
    var filed, u := FiledUnderThePredecessor(run, s, grant);
    assert u.ops == FiledState(grant).ops;
    var buried := BuriedWithoutAWrite(filed, grant);
    ProjectedOverIt(grant);
    longer, t := OneMore(buried, Project(1), BuriedState(grant));
    assert longer[..|run|] == buried[..|filed|][..|run|] && longer[|run|] == buried[..|filed|][|run|];
  }

  /** The first documented end: a resolve that read before the gate was projected
      buries the intent its open has just filed, and the gate is projected without. */
  lemma OverlapLosesTheDeadline()
    ensures exists run, g :: After(run).Some? && LostDeadline(After(run).value, g)
  {
    var run, s := PredecessorHasRead();
    run, s := BuriedThenProjected(run, s, 1);
  }

  ghost predicate LostBehindAFence(run: seq<Action>, n: nat, g: Gate) {
    && n < |run| && After(run).Some? && After(run[..n]).Some?
    && run[n].StartOpen? && run[n].gate == g && After(run[..n]).value.cat.mark == run[n].grant
    && (forall k :: k in After(run[..n]).value.ops && After(run[..n]).value.ops[k].GateID() == g.gateID ==>
          Predecessor(After(run[..n]).value.ops[k], g.gateID, run[n].grant))
    && LostDeadline(After(run).value, g)
  }

  /** And a fencing write completed under the successor's own grant, before its open
      starts, does not prevent it: the predecessor read before the fence, under a mark
      equal to its grant, so it has nothing to write and never meets the fence. */
  lemma AFenceDoesNotCloseTheWindow()
    ensures exists run, n, g :: LostBehindAFence(run, n, g)
  {
    var run, s := PredecessorHasRead();
    var fenced, t := FencingWrite(run, s);
    assert t == State(MarkedBy(2), map[], map[2 := Resolving([1], 1, ResolveRead(MarkedBy(1)))]);
    var lost, u := BuriedThenProjected(fenced, t, 2);
    assert LostBehindAFence(lost, |fenced|, TheGate());
  }

  /** An open is about to project a gate that is barred, and will be refused. */
  ghost predicate RefusedAndBarred(run: seq<Action>, k: nat, id: Text) {
    After(run).Some? &&
    var s := After(run).value;
    Barred(s, id) && Enabled(s, Project(k)) && s.ops[k].Opening? && s.ops[k].gate.gateID == id && Projected(s, k).None?
  }

  lemma BothHaveRead() returns (run: seq<Action>, s: State)
    ensures After(run) == Some(s)
    ensures s == State(MarkedBy(0), map[], map[1 := Opening(TheGate(), 2, 0, OpenRead(MarkedBy(0))),
                                               2 := Resolving([1], 1, ResolveRead(MarkedBy(0)))])
  {
    run, s := [], INITIAL;
    run, s := OneMore(run, StartOpen(1, TheGate(), 2, 0), s);
    run, s := OneMore(run, StartResolve(2, [1], 1), s);
    run, s := OneMore(run, ReadRecord(1), s);
    run, s := OneMore(run, ReadRecord(2), s);
    assert s.ops == map[1 := Opening(TheGate(), 2, 0, OpenRead(MarkedBy(0))), 2 := Resolving([1], 1, ResolveRead(MarkedBy(0)))];
  }

  function MetState(): State {
    State(MarkedBy(0), map[[1] := TheIntent(false)],
          map[1 := Opening(TheGate(), 2, 0, IntentDone(MarkedBy(0))), 2 := Resolving([1], 1, ResolveRead(MarkedBy(0)))])
  }

  function RaisedState(): State {
    State(MarkedBy(1), map[[1] := TheIntent(true)], map[1 := Opening(TheGate(), 2, 0, IntentDone(MarkedBy(0)))])
  }

  lemma RaisedThenBuried(run: seq<Action>) returns (longer: seq<Action>)
    requires After(run) == Some(MetState())
    ensures After(longer) == Some(RaisedState())
  {
    var s := MetState();
    assert Sorted([]) == [];
    longer, s := OneMore(run, Project(2), s);
    assert s.ops[2] == Resolving([1], 1, Cleared) && s.cat == MarkedBy(1);
    longer, s := OneMore(longer, SeeIntent(2), s);
    longer, s := OneMore(longer, Retire(2), s);
    assert s.intents == map[[1] := TheIntent(true)];
    assert s.ops == RaisedState().ops;
  }

  /** The second documented end: the resolve itself raised the mark, so the open whose
      intent it buried conflicts, and the gate is barred. */
  lemma RaisedAndBuriedBars()
    ensures exists run, k, id :: RefusedAndBarred(run, k, id)
  {
    var run, s := BothHaveRead();
    run, s := OneMore(run, TouchIntent(1), s);
    assert s.intents == map[[1] := TheIntent(false)] && s.ops == MetState().ops;
    run := RaisedThenBuried(run);
    assert RefusedAndBarred(run, 1, [1]);
  }
}
