/** The caller-visible object stream under threads: any number of Read, Close and
    cancellation calls over one verifier, one provider reader and one admission,
    every critical section one step. A Wait is a step that is not enabled. The
    verifier is the one of ObjectVerifiers, and the source beneath it may reply with
    anything. */
module ObjectReaders {
  import opened Wrappers
  import opened Bytes
  import opened ObjectVerifiers

  /** What was joined into one result: the cause, what an overtaken read brought, and
      whether the provider closed cleanly. */
  datatype Joined = Joined(cause: Option<StreamResult>, readErr: Option<StreamResult>, cleanClose: bool) {
    predicate Nil() { cause.None? && readErr.None? && cleanClose }
  }

  const NIL := Joined(None, None, true)

  /** What a call returns; `NIL` is success, and for a Read, bytes. */
  type Answer = Joined

  /** What a call wants once the stream is done. */
  datatype Call = ReadCall | CloseCall | CancelCall

  /** A thread's place. The four middle places belong to the one terminator. */
  datatype Place =
    | AtDoor
    | InVerifier
    | Completing
    | ProviderClosed(clean: bool)
    | Releasing
    | WaitingDone
    | Returned(answer: Answer)

  /** `out` is what a Read brings back, whatever error it brings with it. */
  datatype Thread = Thread(call: Call, place: Place, out: seq<byte>)

  /** `landed` lists the Reads that have left the verifier, in that order. */
  datatype Stream = Stream(
    verifier: Verifier,
    landed: seq<nat>,
    reading: bool,
    closing: bool,
    done: bool,
    primary: StreamResult,
    readErr: Option<StreamResult>,
    terminal: Joined,
    closeErr: Joined,
    providerCloses: nat,
    releases: nat,
    threads: map<nat, Thread>)

  datatype Step =
    | Arrive(id: nat, call: Call)
    | Enter(id: nat)
    | VerifierReturns(id: nat, size: nat, reply: Reply, ctx: Cancellation)
    | Begin(id: nat)
    | CloseProvider(id: nat, clean: bool)
    | Publish(id: nat)
    | Release(id: nat)
    | Wake(id: nat)

  function NewStream(p: Promise): Stream {
    Stream(Verifier(p, [], Progress), [], false, false, false, Progress, None, NIL, NIL, 0, 0, map[])
  }

  predicate At(s: Stream, id: nat, place: Place) { id in s.threads && s.threads[id].place == place }

  predicate Enabled(s: Stream, step: Step) {
    match step
    case Arrive(id, _) => id !in s.threads
    case Enter(id) => At(s, id, AtDoor) && s.threads[id].call == ReadCall && !(s.reading && !s.closing)
    case VerifierReturns(id, size, reply, _) => At(s, id, InVerifier) && |reply.buffer| >= size
    case Begin(id) => At(s, id, AtDoor) && s.threads[id].call != ReadCall
    case CloseProvider(id, _) => At(s, id, Completing)
    case Publish(id) => id in s.threads && s.threads[id].place.ProviderClosed? && !s.reading
    case Release(id) => At(s, id, Releasing)
    case Wake(id) => At(s, id, WaitingDone) && s.done
  }

  function Move(s: Stream, id: nat, place: Place): Stream
    requires id in s.threads
  {
    s.(threads := s.threads[id := s.threads[id].(place := place)])
  }

  /** What a finished call returns: Close its latched result, Read the terminal. */
  function AnswerOf(s: Stream, call: Call): Answer {
    if call == ReadCall then s.terminal else s.closeErr
  }

  function Cause(call: Call): StreamResult {
    if call == CancelCall then Failed(Canceled) else Failed(Incomplete)
  }

  function Apply(s: Stream, step: Step): Stream
    requires Enabled(s, step)
  {
    match step
    case Arrive(id, call) => s.(threads := s.threads[id := Thread(call, AtDoor, [])])
    case Enter(id) =>
      if s.done then Move(s, id, Returned(AnswerOf(s, ReadCall)))
      else if s.closing then Move(s, id, WaitingDone)
      else Move(s.(reading := true), id, InVerifier)
    case VerifierReturns(id, size, reply, ctx) =>
      var taken := ReadOnce(s.verifier, size, reply, ctx);
      var r := taken.next.outcome;
      var after := s.(reading := false, verifier := taken.next, landed := s.landed + [id],
                      threads := s.threads[id := s.threads[id].(out := taken.out)]);
      if r == Progress then Move(after, id, if s.closing then WaitingDone else Returned(NIL))
      else if !s.closing then Move(after.(closing := true, primary := r), id, Completing)
      else Move(after.(readErr := Some(r)), id, WaitingDone)
    case Begin(id) =>
      if s.done then Move(s, id, Returned(s.closeErr))
      else if s.closing then Move(s, id, WaitingDone)
      else Move(s.(closing := true, primary := Cause(s.threads[id].call)), id, Completing)
    case CloseProvider(id, clean) => Move(s.(providerCloses := s.providerCloses + 1), id, ProviderClosed(clean))
    case Publish(id) =>
      var clean := s.threads[id].place.clean;
      var joined := Joined(Some(s.primary), s.readErr, clean);
      var closeErr := if s.primary == Eof then joined.(cause := None) else joined;
      Move(s.(terminal := joined, closeErr := closeErr, done := true), id, Releasing)
    case Release(id) => Move(s.(releases := s.releases + 1), id, Returned(AnswerOf(s, s.threads[id].call)))
    case Wake(id) => Move(s, id, Returned(AnswerOf(s, s.threads[id].call)))
  }

  function After(p: Promise, run: seq<Step>): Option<Stream> {
    if run == [] then Some(NewStream(p))
    else
      var before := After(p, run[..|run| - 1]);
      if before.Some? && Enabled(before.value, run[|run| - 1]) then Some(Apply(before.value, run[|run| - 1])) else None
  }

  // ---- what every schedule keeps ---------------------------------------------------------

  predicate Terminating(place: Place) { place.Completing? || place.ProviderClosed? || place.Releasing? }

  /** One thread is in the verifier exactly when `reading` says so, and never two. */
  ghost predicate OneReader(s: Stream) {
    && (s.reading <==> exists i :: At(s, i, InVerifier))
    && (forall i, j :: At(s, i, InVerifier) && At(s, j, InVerifier) ==> i == j)
  }

  /** One thread is terminating from the moment closing is set until release. */
  ghost predicate OneTerminator(s: Stream) {
    && (forall i, j :: IsTerminator(s, i) && IsTerminator(s, j) ==> i == j)
    && (s.closing && s.releases == 0 ==> exists i :: IsTerminator(s, i))
    && (forall i :: IsTerminator(s, i) ==> s.closing && s.releases == 0)
  }

  predicate IsTerminator(s: Stream, i: nat) { i in s.threads && Terminating(s.threads[i].place) }

  /** Where the terminator is says how far termination has got. */
  ghost predicate Stages(s: Stream) {
    && s.providerCloses <= 1 && s.releases <= 1
    && (s.done ==> s.closing && s.providerCloses == 1) && (s.releases == 1 ==> s.done)
    && (!s.closing ==> s.providerCloses == 0 && s.readErr.None?)
    && (forall i :: i in s.threads ==> StageAgrees(s, s.threads[i].place))
  }

  predicate StageAgrees(s: Stream, place: Place) {
    match place
    case Completing => s.providerCloses == 0 && !s.done
    case ProviderClosed(_) => s.providerCloses == 1 && !s.done
    case Releasing => s.done
    case InVerifier => !s.done
    case WaitingDone => s.closing
    case _ => true
  }

  /** A clean end is the verifier's, and published results say what happened. */
  ghost predicate Honest(s: Stream) {
    && (s.closing && s.primary == Eof ==> s.verifier.outcome == Eof && s.readErr.None? && !s.reading)
    && (s.closing ==> s.primary != Progress)
    && (s.readErr.Some? ==> s.readErr.value != Progress)
    && (s.done ==>
          && !s.reading && s.terminal.cause == Some(s.primary) && s.terminal.readErr == s.readErr
          && s.closeErr == if s.primary == Eof then s.terminal.(cause := None) else s.terminal)
    && (forall i :: i in s.threads && s.threads[i].place.Returned? ==> ReturnHonest(s, s.threads[i]))
    && (forall i :: At(s, i, InVerifier) ==> s.threads[i].call == ReadCall)
  }

  predicate ReturnHonest(s: Stream, t: Thread)
    requires t.place.Returned?
  {
    if t.call == ReadCall then t.place.answer == NIL || (s.done && t.place.answer == s.terminal)
    else s.done && t.place.answer == s.closeErr
  }

  /** Everything the Reads brought back, in the order they left the verifier. */
  function Handed(threads: map<nat, Thread>, landed: seq<nat>): seq<byte> {
    if landed == [] then []
    else
      var last := landed[|landed| - 1];
      Handed(threads, landed[..|landed| - 1]) + (if last in threads then threads[last].out else [])
  }

  predicate HasLanded(place: Place) { !place.AtDoor? && !place.InVerifier? }

  /** Each Read that landed did so once, and no other thread was handed anything. */
  ghost predicate LogKept(threads: map<nat, Thread>, landed: seq<nat>) {
    && (forall i :: 0 <= i < |landed| ==> landed[i] in threads && HasLanded(threads[landed[i]].place))
    && (forall i, j :: 0 <= i < j < |landed| ==> landed[i] != landed[j])
    && (forall id :: id in threads && threads[id].out != [] ==> id in landed && threads[id].call == ReadCall)
  }

  /** The verifier keeps its promise, and what it has hashed is exactly what Reads
      were handed, in order. */
  ghost predicate BytesKept(s: Stream) {
    s.verifier.Kept() && LogKept(s.threads, s.landed) && Handed(s.threads, s.landed) == s.verifier.hashed
  }

  ghost predicate Inv(s: Stream) { OneReader(s) && OneTerminator(s) && Stages(s) && Honest(s) && BytesKept(s) }

  lemma {:induction false} HandedUnchanged(threads: map<nat, Thread>, next: map<nat, Thread>, landed: seq<nat>)
    requires forall i :: 0 <= i < |landed| ==> landed[i] in threads && landed[i] in next && next[landed[i]].out == threads[landed[i]].out
    ensures Handed(next, landed) == Handed(threads, landed)
  {
    if landed != [] { HandedUnchanged(threads, next, landed[..|landed| - 1]); }
  }

  lemma LogAfterLanding(threads: map<nat, Thread>, landed: seq<nat>, id: nat, t: Thread)
    requires LogKept(threads, landed) && id in threads && !HasLanded(threads[id].place)
    requires t.call == ReadCall && HasLanded(t.place)
    ensures LogKept(threads[id := t], landed + [id])
    ensures Handed(threads[id := t], landed + [id]) == Handed(threads, landed) + t.out
  {
    assert id !in landed;
    HandedUnchanged(threads, threads[id := t], landed);
    assert (landed + [id])[..|landed|] == landed;
  }

  lemma LogAfterOther(threads: map<nat, Thread>, landed: seq<nat>, id: nat, t: Thread)
    requires LogKept(threads, landed)
    requires if id in threads then t.out == threads[id].out && t.call == threads[id].call && (HasLanded(threads[id].place) ==> HasLanded(t.place))
             else t.out == []
    ensures LogKept(threads[id := t], landed) && Handed(threads[id := t], landed) == Handed(threads, landed)
  {
    HandedUnchanged(threads, threads[id := t], landed);
  }

  /** A step moves its own thread, nearer its return unless it arrives, and no other. */
  lemma OwnThreadOnly(s: Stream, step: Step)
    requires Enabled(s, step) && !step.VerifierReturns?
    ensures var t := Apply(s, step);
            && step.id in t.threads && t.threads == s.threads[step.id := t.threads[step.id]]
            && t.verifier == s.verifier && t.landed == s.landed
            && (if step.Arrive? then t.threads[step.id] == Thread(step.call, AtDoor, [])
                else && t.threads[step.id] == s.threads[step.id].(place := t.threads[step.id].place)
                     && (HasLanded(s.threads[step.id].place) ==> HasLanded(t.threads[step.id].place)))
  {
  }

  lemma LandingThread(s: Stream, step: Step)
    requires Enabled(s, step) && step.VerifierReturns?
    ensures var t, taken := Apply(s, step), ReadOnce(s.verifier, step.size, step.reply, step.ctx);
            && t.verifier == taken.next && t.landed == s.landed + [step.id]
            && step.id in t.threads && t.threads == s.threads[step.id := t.threads[step.id]]
            && t.threads[step.id].call == s.threads[step.id].call && t.threads[step.id].out == taken.out
            && HasLanded(t.threads[step.id].place)
  {
  }

  lemma BytesStep(s: Stream, step: Step)
    requires BytesKept(s) && Honest(s) && Enabled(s, step)
    ensures BytesKept(Apply(s, step)) && Apply(s, step).verifier.promise == s.verifier.promise
  {
    var t := Apply(s, step);
    if step.VerifierReturns? {
      ReadOnceMeaning(s.verifier, step.size, step.reply, step.ctx);
      LandingThread(s, step);
      LogAfterLanding(s.threads, s.landed, step.id, t.threads[step.id]);
    } else {
      OwnThreadOnly(s, step);
      LogAfterOther(s.threads, s.landed, step.id, t.threads[step.id]);
    }
  }

  lemma ReaderStep(s: Stream, step: Step)
    requires Enabled(s, step) && OneReader(s) && OneTerminator(s)
    ensures OneReader(Apply(s, step))
  {
    var t := Apply(s, step);
    if t.reading {
      if step.Enter? && !s.closing && !s.done {
        assert At(t, step.id, InVerifier);
      } else {
        var i :| At(s, i, InVerifier);
        assert At(t, i, InVerifier);
      }
    }
    forall i | At(t, i, InVerifier) ensures t.reading && ((step.Enter? && i == step.id) || At(s, i, InVerifier)) {
      if i != step.id { assert At(s, i, InVerifier); }
    }
  }

  /** A terminator was one already, or its own step has just made it the only one. */
  lemma TerminatorWas(s: Stream, step: Step, i: nat)
    requires Enabled(s, step) && OneTerminator(s) && Stages(s) && IsTerminator(Apply(s, step), i)
    ensures var t := Apply(s, step);
            && t.closing && t.releases == 0 && (i == step.id || IsTerminator(s, i))
            && (s.closing ==> IsTerminator(s, i))
  {
    if i != step.id {
      assert IsTerminator(s, i);
      assert step.Release? ==> IsTerminator(s, step.id);
    } else if i in s.threads {
      assert StageAgrees(s, s.threads[i].place);
      assert IsTerminator(s, i) ==> s.closing && s.releases == 0;
    }
  }

  lemma TerminatorIsThere(s: Stream, step: Step)
    requires Enabled(s, step) && OneTerminator(s) && Stages(s)
    requires Apply(s, step).closing && Apply(s, step).releases == 0
    ensures exists i :: IsTerminator(Apply(s, step), i)
  {
    var t := Apply(s, step);
    if s.closing {
      var i :| IsTerminator(s, i);
      assert IsTerminator(t, i);
    } else {
      assert IsTerminator(t, step.id);
    }
  }

  lemma TerminatorStep(s: Stream, step: Step)
    requires Enabled(s, step) && OneTerminator(s) && Stages(s)
    ensures OneTerminator(Apply(s, step))
  {
    var t := Apply(s, step);
    forall i | IsTerminator(t, i)
      ensures t.closing && t.releases == 0 && (i == step.id || IsTerminator(s, i)) && (s.closing ==> IsTerminator(s, i))
    {
      TerminatorWas(s, step, i);
    }
    forall i, j | IsTerminator(t, i) && IsTerminator(t, j) ensures i == j {
      if !s.closing {
        assert !IsTerminator(s, i) && !IsTerminator(s, j);
      }
    }
    if t.closing && t.releases == 0 { TerminatorIsThere(s, step); }
  }

  lemma StagesStep(s: Stream, step: Step)
    requires Enabled(s, step) && OneReader(s) && OneTerminator(s) && Stages(s)
    ensures Stages(Apply(s, step))
  {
    var t := Apply(s, step);
    forall i | i in t.threads ensures StageAgrees(t, t.threads[i].place) {
      if i != step.id {
        assert StageAgrees(s, s.threads[i].place);
        if IsTerminator(s, i) && IsTerminator(s, step.id) { assert false; }
        if At(s, i, InVerifier) { assert s.reading; }
      } else if i in s.threads {
        assert StageAgrees(s, s.threads[i].place);
        assert IsTerminator(s, i) ==> s.closing && s.releases == 0;
      }
    }
    if !step.Arrive? { assert StageAgrees(s, s.threads[step.id].place); }
    if IsTerminator(s, step.id) { assert s.closing && s.releases == 0; }
  }

  lemma ReturnsStayHonest(s: Stream, step: Step)
    requires Enabled(s, step) && Stages(s) && Honest(s)
    ensures var t := Apply(s, step);
            forall i :: i in t.threads && t.threads[i].place.Returned? ==> ReturnHonest(t, t.threads[i])
  {
    var t := Apply(s, step);
    if !step.Arrive? { assert StageAgrees(s, s.threads[step.id].place); }
    forall i | i in t.threads && t.threads[i].place.Returned? ensures ReturnHonest(t, t.threads[i]) {
      if i in s.threads && s.threads[i].place.Returned? { assert ReturnHonest(s, s.threads[i]); }
    }
  }

  lemma HonestStep(s: Stream, step: Step)
    requires Enabled(s, step) && OneReader(s) && OneTerminator(s) && Stages(s) && Honest(s)
    ensures Honest(Apply(s, step))
  {
    var t := Apply(s, step);
    if !step.Arrive? { assert StageAgrees(s, s.threads[step.id].place); }
    if At(s, step.id, InVerifier) { assert s.reading; }
    ReturnsStayHonest(s, step);
    forall i | At(t, i, InVerifier) ensures t.threads[i].call == ReadCall {
      if i != step.id { assert At(s, i, InVerifier); }
    }
  }

  lemma InvStep(s: Stream, step: Step)
    requires Inv(s) && Enabled(s, step)
    ensures Inv(Apply(s, step))
  {
    ReaderStep(s, step);
    TerminatorStep(s, step);
    StagesStep(s, step);
    HonestStep(s, step);
    BytesStep(s, step);
  }

  lemma {:induction false} EveryScheduleKeepsInv(p: Promise, run: seq<Step>)
    requires After(p, run).Some?
    ensures Inv(After(p, run).value) && After(p, run).value.verifier.promise == p
  {
    if run != [] {
      EveryScheduleKeepsInv(p, run[..|run| - 1]);
      InvStep(After(p, run[..|run| - 1]).value, run[|run| - 1]);
      BytesStep(After(p, run[..|run| - 1]).value, run[|run| - 1]);
    }
  }

  // ---- what that means to callers -----------------------------------------------------------

  /** In every schedule at most one thread is in the verifier, the provider is closed
      at most once and admission released at most once, only after the result is
      final; and when every call of a terminated stream has returned, each happened. */
  lemma OnceEach(p: Promise, run: seq<Step>)
    requires After(p, run).Some?
    ensures var s := After(p, run).value;
            && (forall i, j :: At(s, i, InVerifier) && At(s, j, InVerifier) ==> i == j)
            && s.providerCloses <= 1 && s.releases <= 1 && (s.releases == 1 ==> s.done && s.providerCloses == 1)
            && (s.closing && (forall i :: i in s.threads ==> s.threads[i].place.Returned?) ==>
                  s.done && s.providerCloses == 1 && s.releases == 1)
  {
    EveryScheduleKeepsInv(p, run);
    var s := After(p, run).value;
    if s.closing && s.releases == 0 {
      var i :| IsTerminator(s, i);
    }
  }

  lemma PublishedStays(s: Stream, step: Step)
    requires Stages(s) && Enabled(s, step) && s.done
    ensures var t := Apply(s, step); t.done && t.terminal == s.terminal && t.closeErr == s.closeErr
  {
    assert forall i :: i in s.threads && s.threads[i].place.ProviderClosed? ==> StageAgrees(s, s.threads[i].place);
  }

  lemma {:induction false} ResultIsFinal(p: Promise, run: seq<Step>, n: nat)
    requires n <= |run| && After(p, run).Some? && After(p, run[..n]).Some? && After(p, run[..n]).value.done
    ensures var s, t := After(p, run[..n]).value, After(p, run).value;
            t.done && t.terminal == s.terminal && t.closeErr == s.closeErr
    decreases |run|
  {
    if n == |run| {
      assert run[..n] == run;
    } else {
      var front := run[..|run| - 1];
      assert front[..n] == run[..n];
      ResultIsFinal(p, front, n);
      EveryScheduleKeepsInv(p, front);
      PublishedStays(After(p, front).value, run[|run| - 1]);
    }
  }

  // ---- what is reported ------------------------------------------------------------------

  /** The verifier's outcome is what ended the stream, or is joined to what did. */
  ghost predicate OutcomeReported(s: Stream) {
    && (!s.closing ==> s.verifier.outcome == Progress)
    && (s.closing ==> s.verifier.outcome == Progress || s.primary == s.verifier.outcome || s.readErr == Some(s.verifier.outcome))
    && (s.readErr.Some? ==> s.readErr.value == s.verifier.outcome)
  }

  /** The cause is the terminator's: an early Close is incomplete, a cancellation is one,
      and a Read brings the verifier's outcome. */
  predicate CausedBy(s: Stream, call: Call) {
    s.primary == match call
                 case CloseCall => Failed(Incomplete)
                 case CancelCall => Failed(Canceled)
                 case ReadCall => s.verifier.outcome
  }

  ghost predicate CauseReported(s: Stream) { forall id :: IsTerminator(s, id) ==> CausedBy(s, s.threads[id].call) }

  /** A Read without an error has been through the verifier. */
  ghost predicate NilReadsLanded(s: Stream) {
    forall id :: At(s, id, Returned(NIL)) && s.threads[id].call == ReadCall ==> id in s.landed
  }

  /** What the provider's own close said, in this schedule. */
  function ProviderAnswer(run: seq<Step>): Option<bool> {
    if run == [] then None
    else if run[|run| - 1].CloseProvider? then Some(run[|run| - 1].clean) else ProviderAnswer(run[..|run| - 1])
  }

  ghost predicate CloseReported(s: Stream, answer: Option<bool>) {
    && (forall id :: id in s.threads && s.threads[id].place.ProviderClosed? ==> answer == Some(s.threads[id].place.clean))
    && (s.done ==> answer == Some(s.terminal.cleanClose))
  }

  lemma OutcomeStep(s: Stream, step: Step)
    requires Inv(s) && OutcomeReported(s) && Enabled(s, step)
    ensures OutcomeReported(Apply(s, step))
  {
    if step.VerifierReturns? { ReadOnceMeaning(s.verifier, step.size, step.reply, step.ctx); }
  }

  lemma CauseStep(s: Stream, step: Step)
    requires Inv(s) && OutcomeReported(s) && CauseReported(s) && Enabled(s, step)
    ensures CauseReported(Apply(s, step))
  {
    var t := Apply(s, step);
    forall id | IsTerminator(t, id) ensures CausedBy(t, t.threads[id].call) {
      TerminatorWas(s, step, id);
      CauseStays(s, step, id);
    }
  }

  lemma CauseStays(s: Stream, step: Step, id: nat)
    requires Inv(s) && OutcomeReported(s) && CauseReported(s) && Enabled(s, step) && IsTerminator(Apply(s, step), id)
    requires id == step.id || IsTerminator(s, id)
    ensures CausedBy(Apply(s, step), Apply(s, step).threads[id].call)
  {
    if step.VerifierReturns? { ReadOnceMeaning(s.verifier, step.size, step.reply, step.ctx); }
    if IsTerminator(s, id) { assert CausedBy(s, s.threads[id].call); }
  }

  lemma NilStep(s: Stream, step: Step)
    requires Inv(s) && NilReadsLanded(s) && Enabled(s, step)
    ensures NilReadsLanded(Apply(s, step))
  {
    var t := Apply(s, step);
    if !step.Arrive? { assert StageAgrees(s, s.threads[step.id].place); }
    forall id | At(t, id, Returned(NIL)) && t.threads[id].call == ReadCall ensures id in t.landed {
      if id != step.id { assert At(s, id, Returned(NIL)); }
    }
  }

  lemma CloseStep(s: Stream, step: Step, run: seq<Step>)
    requires Inv(s) && Enabled(s, step) && CloseReported(s, ProviderAnswer(run))
    ensures CloseReported(Apply(s, step), ProviderAnswer(run + [step]))
  {
    var t := Apply(s, step);
    assert (run + [step])[..|run|] == run;
    if step.CloseProvider? { assert StageAgrees(s, s.threads[step.id].place) && IsTerminator(s, step.id); }
    if step.Publish? { assert StageAgrees(s, s.threads[step.id].place); }
    forall id | id in t.threads && t.threads[id].place.ProviderClosed?
      ensures ProviderAnswer(run + [step]) == Some(t.threads[id].place.clean)
    {
      if id != step.id { assert IsTerminator(s, id) && s.threads[id].place == t.threads[id].place; }
    }
  }

  lemma {:induction false} EveryScheduleReports(p: Promise, run: seq<Step>)
    requires After(p, run).Some?
    ensures var s := After(p, run).value;
            OutcomeReported(s) && CauseReported(s) && NilReadsLanded(s) && CloseReported(s, ProviderAnswer(run))
  {
    if run != [] {
      var front, step := run[..|run| - 1], run[|run| - 1];
      EveryScheduleReports(p, front);
      EveryScheduleKeepsInv(p, front);
      assert front + [step] == run;
      var s := After(p, front).value;
      OutcomeStep(s, step);
      CauseStep(s, step);
      NilStep(s, step);
      CloseStep(s, step, front);
    }
  }

  /** Nothing that went wrong is left out of the result: in every schedule whoever is
      terminating gives the cause, the verifier's outcome is the cause or is joined to it,
      the provider's own answer is reported as it was, and a Read that returned no error
      had its bytes through the verifier. */
  lemma EverythingIsReported(p: Promise, run: seq<Step>)
    requires After(p, run).Some?
    ensures var s := After(p, run).value;
            && (forall id :: IsTerminator(s, id) ==> CausedBy(s, s.threads[id].call))
            && (s.done ==>
                  && ProviderAnswer(run) == Some(s.terminal.cleanClose) && s.terminal.cause == Some(s.primary)
                  && (s.verifier.outcome != Progress && s.primary != s.verifier.outcome ==> s.terminal.readErr == Some(s.verifier.outcome))
                  && (s.terminal.readErr.Some? ==> s.terminal.readErr.value == s.verifier.outcome))
            && (forall id :: At(s, id, Returned(NIL)) && s.threads[id].call == ReadCall ==> id in s.landed)
  {
    EveryScheduleReports(p, run);
    EveryScheduleKeepsInv(p, run);
  }

  /** Close returns nil exactly when the cause is the verified end and the provider
      closed cleanly; and then, whatever the source did, the bytes handed to Reads, in
      order, are of exactly the promised length and digest. Every later call is
      answered the same. */
  lemma CloseNilOnlyIfVerified(p: Promise, run: seq<Step>, id: nat)
    requires After(p, run).Some?
    requires var s := After(p, run).value; id in s.threads && s.threads[id].call != ReadCall && s.threads[id].place.Returned?
    ensures var s := After(p, run).value;
            && s.done && s.threads[id].place.answer == s.closeErr
            && (s.threads[id].place.answer.Nil() <==> s.primary == Eof && ProviderAnswer(run) == Some(true))
            && (s.threads[id].place.answer.Nil() ==>
                  && s.verifier.outcome == Eof && s.readErr == None
                  && p.Met(s.verifier.hashed) && Handed(s.threads, s.landed) == s.verifier.hashed)
  {
    EveryScheduleKeepsInv(p, run);
    EveryScheduleReports(p, run);
    var s := After(p, run).value;
    assert ReturnHonest(s, s.threads[id]);
  }

  /** A Read that returns no error returned bytes of a stream still going when it
      left the verifier; any other read is answered the terminal result. */
  lemma ReadsAreAnsweredTheTerminal(p: Promise, run: seq<Step>, id: nat)
    requires After(p, run).Some?
    requires var s := After(p, run).value; id in s.threads && s.threads[id].call == ReadCall && s.threads[id].place.Returned?
    ensures var s := After(p, run).value;
            var answer := s.threads[id].place.answer;
            if answer.Nil() then id in s.landed
            else s.done && answer == s.terminal && answer.cause == Some(s.primary) && s.primary != Progress
  {
    EveryScheduleKeepsInv(p, run);
    EveryScheduleReports(p, run);
    var s := After(p, run).value;
    assert ReturnHonest(s, s.threads[id]);
  }

  lemma ReaderCanReturn(s: Stream)
    requires Inv(s) && s.reading
    ensures exists step: Step :: !step.Arrive? && Enabled(s, step)
  {
    var i :| At(s, i, InVerifier);
    assert Enabled(s, VerifierReturns(i, 0, Reply(0, [], NoError), Cancellation(false, false)));
  }

  lemma TerminatorCanStep(s: Stream, i: nat)
    requires Inv(s) && IsTerminator(s, i)
    ensures exists step: Step :: !step.Arrive? && Enabled(s, step)
  {
    match s.threads[i].place
    case Completing => assert Enabled(s, CloseProvider(i, true));
    case ProviderClosed(_) => if s.reading { ReaderCanReturn(s); } else { assert Enabled(s, Publish(i)); }
    case Releasing => assert Enabled(s, Release(i));
    case _ =>
  }

  /** No schedule deadlocks: while any call has not returned, some thread can move. */
  lemma NoDeadlock(p: Promise, run: seq<Step>, id: nat)
    requires After(p, run).Some?
    requires var s := After(p, run).value; id in s.threads && !s.threads[id].place.Returned?
    ensures exists step: Step :: !step.Arrive? && Enabled(After(p, run).value, step)
  {
    EveryScheduleKeepsInv(p, run);
    var s := After(p, run).value;
    assert StageAgrees(s, s.threads[id].place);
    assert At(s, id, InVerifier) ==> s.reading;
    if s.reading {
      ReaderCanReturn(s);
    } else if IsTerminator(s, id) {
      TerminatorCanStep(s, id);
    } else if At(s, id, AtDoor) {
      assert Enabled(s, if s.threads[id].call == ReadCall then Enter(id) else Begin(id));
    } else if At(s, id, WaitingDone) && s.done {
      assert Enabled(s, Wake(id));
    } else if At(s, id, WaitingDone) {
      var i :| IsTerminator(s, i);
      TerminatorCanStep(s, i);
    }
  }

  function StepsLeft(place: Place): nat {
    match place
    case AtDoor => 6
    case InVerifier => 5
    case Completing => 4
    case ProviderClosed(_) => 3
    case Releasing => 2
    case WaitingDone => 1
    case Returned(_) => 0
  }

  /** Every step but an arrival brings its own thread nearer its return and leaves
      every other where it was. */
  lemma EveryStepRetires(s: Stream, step: Step)
    requires Enabled(s, step) && !step.Arrive?
    ensures var t := Apply(s, step);
            && step.id in s.threads && step.id in t.threads && t.threads == s.threads[step.id := t.threads[step.id]]
            && StepsLeft(t.threads[step.id].place) < StepsLeft(s.threads[step.id].place)
  {
    if step.VerifierReturns? { LandingThread(s, step); } else { OwnThreadOnly(s, step); }
  }

  /** The calls of a schedule, in the order they arrived. */
  function Arrivals(run: seq<Step>): seq<nat> {
    if run == [] then []
    else Arrivals(run[..|run| - 1]) + (if run[|run| - 1].Arrive? then [run[|run| - 1].id] else [])
  }

  /** The steps these calls can still take. */
  function TotalLeft(threads: map<nat, Thread>, ids: seq<nat>): nat {
    if ids == [] then 0
    else
      var last := ids[|ids| - 1];
      TotalLeft(threads, ids[..|ids| - 1]) + (if last in threads then StepsLeft(threads[last].place) else 0)
  }

  lemma {:induction false} TotalOfOthers(threads: map<nat, Thread>, id: nat, t: Thread, ids: seq<nat>)
    requires id !in ids
    ensures TotalLeft(threads[id := t], ids) == TotalLeft(threads, ids)
  {
    if ids != [] { TotalOfOthers(threads, id, t, ids[..|ids| - 1]); }
  }

  ghost predicate Distinct(ids: seq<nat>) { forall i, j :: 0 <= i < j < |ids| ==> ids[i] != ids[j] }

  lemma {:induction false} TotalFalls(threads: map<nat, Thread>, id: nat, t: Thread, ids: seq<nat>)
    requires Distinct(ids) && id in ids && id in threads && StepsLeft(t.place) < StepsLeft(threads[id].place)
    ensures TotalLeft(threads[id := t], ids) < TotalLeft(threads, ids)
  {
    var front, last := ids[..|ids| - 1], ids[|ids| - 1];
    if last == id {
      TotalOfOthers(threads, id, t, front);
    } else {
      assert id in front;
      TotalFalls(threads, id, t, front);
    }
  }

  /** Each call is one arrival, and pays for at most seven steps. */
  lemma {:induction false} StepsAreCounted(p: Promise, run: seq<Step>)
    requires After(p, run).Some?
    ensures var s, ids := After(p, run).value, Arrivals(run);
            && Distinct(ids) && (forall id :: id in s.threads <==> id in ids)
            && |run| + TotalLeft(s.threads, ids) <= 7 * |ids|
  {
    if run != [] {
      var front, step := run[..|run| - 1], run[|run| - 1];
      var s, t := After(p, front).value, After(p, run).value;
      StepsAreCounted(p, front);
      if step.Arrive? {
        assert Arrivals(run)[..|Arrivals(run)| - 1] == Arrivals(front);
        TotalOfOthers(s.threads, step.id, Thread(step.call, AtDoor, []), Arrivals(front));
      } else {
        EveryStepRetires(s, step);
        assert Arrivals(run) == Arrivals(front);
        TotalFalls(s.threads, step.id, t.threads[step.id], Arrivals(front));
      }
    }
  }

  predicate Answered(s: Stream) { forall id :: id in s.threads ==> s.threads[id].place.Returned? }

  /** Nothing but a new arrival can move. */
  ghost predicate AtRest(s: Stream) { forall step: Step :: !step.Arrive? ==> !Enabled(s, step) }

  /** A schedule over finitely many calls is finite, at most seven steps to a call; and
      one that cannot go on but by another call arriving has answered every call. */
  lemma SchedulesEndAnswered(p: Promise, run: seq<Step>)
    requires After(p, run).Some?
    ensures |run| <= 7 * |Arrivals(run)|
    ensures AtRest(After(p, run).value) <==> Answered(After(p, run).value)
  {
    StepsAreCounted(p, run);
    var s := After(p, run).value;
    if !Answered(s) {
      var id :| id in s.threads && !s.threads[id].place.Returned?;
      NoDeadlock(p, run, id);
    }
  }

  // ---- a faithful source is verified -----------------------------------------------------------

  lemma Then(p: Promise, run: seq<Step>, s: Stream, step: Step) returns (longer: seq<Step>, t: Stream)
    requires After(p, run) == Some(s) && Enabled(s, step)
    ensures After(p, longer) == Some(t) && t == Apply(s, step)
  {
    longer, t := run + [step], Apply(s, step);
    assert longer[..|run|] == run;
  }

  /** Still going after `n` reads, none of them in flight. */
  ghost predicate Streaming(s: Stream, p: Promise, hashed: seq<byte>, n: nat) {
    && s.verifier == Verifier(p, hashed, Progress) && !s.reading && !s.closing && !s.done
    && s.readErr == None && forall id :: id in s.threads ==> id < n
  }

  /** What the first `n` replies brought. */
  function BroughtBy(replies: seq<Reply>, size: nat, n: nat): seq<byte>
    requires Countable(replies, size) && n <= |replies|
  {
    Brought(replies[..n])
  }

  /** One read arrives, gets the verifier and brings its reply back. */
  lemma ReadOneReply(p: Promise, run: seq<Step>, s: Stream, size: nat, replies: seq<Reply>, i: nat)
    returns (longer: seq<Step>, t: Stream)
    requires size > 0 && Faithful(replies, size) && p.Met(Brought(replies))
    requires After(p, run) == Some(s) && i < |replies| && Streaming(s, p, BroughtBy(replies, size, i), i)
    ensures After(p, longer) == Some(t) && i in t.threads && t.threads[i].call == ReadCall
    ensures if i + 1 < |replies| then Streaming(t, p, BroughtBy(replies, size, i + 1), i + 1)
            else && t.primary == Eof && At(t, i, Completing) && !t.reading && !t.done && t.readErr == None
                 && t.verifier == Verifier(p, Brought(replies), Eof) && forall id :: id in t.threads ==> id <= i
  {
    FaithfulRead(s.verifier, size, replies, i);
    assert replies[..|replies|] == replies;
    longer, t := Then(p, run, s, Arrive(i, ReadCall));
    longer, t := Then(p, longer, t, Enter(i));
    longer, t := Then(p, longer, t, VerifierReturns(i, size, replies[i], Cancellation(false, false)));
  }

  lemma {:induction false} ReadReplies(p: Promise, size: nat, replies: seq<Reply>, n: nat) returns (run: seq<Step>, s: Stream)
    requires n < |replies| && size > 0 && Faithful(replies, size) && p.Met(Brought(replies))
    ensures After(p, run) == Some(s) && Streaming(s, p, BroughtBy(replies, size, n), n)
  {
    if n == 0 {
      run, s := [], NewStream(p);
      assert replies[..0] == [];
    } else {
      run, s := ReadReplies(p, size, replies, n - 1);
      run, s := ReadOneReply(p, run, s, size, replies, n - 1);
    }
  }

  /** The last read ends the stream: it closes the provider, publishes and releases; a
      Close after it returns. */
  lemma CloseAfterTheEnd(p: Promise, run: seq<Step>, s: Stream, i: nat) returns (longer: seq<Step>, t: Stream)
    requires After(p, run) == Some(s) && At(s, i, Completing) && s.primary == Eof && !s.reading && !s.done && s.readErr == None
    requires s.threads[i].call == ReadCall && forall id :: id in s.threads ==> id <= i
    ensures After(p, longer) == Some(t) && t.verifier == s.verifier
    ensures i + 1 in t.threads && t.threads[i + 1].call == CloseCall && t.threads[i + 1].place == Returned(NIL)
  {
    longer, t := Then(p, run, s, CloseProvider(i, true));
    longer, t := Then(p, longer, t, Publish(i));
    longer, t := Then(p, longer, t, Release(i));
    longer, t := Then(p, longer, t, Arrive(i + 1, CloseCall));
    longer, t := Then(p, longer, t, Begin(i + 1));
  }

  /** A stream can be verified: over any source that brings exactly the promised bytes and
      closes cleanly there is a schedule in which Close returns nil, with those very bytes
      handed to Reads. */
  lemma FaithfulStreamsAreVerified(p: Promise, size: nat, replies: seq<Reply>) returns (run: seq<Step>, closer: nat)
    requires size > 0 && Faithful(replies, size) && p.Met(Brought(replies))
    ensures After(p, run).Some?
    ensures var s := After(p, run).value;
            && closer in s.threads && s.threads[closer].call == CloseCall && s.threads[closer].place == Returned(NIL)
            && s.verifier.outcome == Eof && Handed(s.threads, s.landed) == Brought(replies)
  {
    var last := |replies| - 1;
    var s: Stream;
    run, s := ReadReplies(p, size, replies, last);
    run, s := ReadOneReply(p, run, s, size, replies, last);
    run, s := CloseAfterTheEnd(p, run, s, last);
    closer := |replies|;
    EveryScheduleKeepsInv(p, run);
  }
}
