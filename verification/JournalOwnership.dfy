/** Single-writer ownership of one session's ledger, as a machine over every
    interleaving of grants, tip reads, fences, appends, lost acknowledgements and
    closes. `authors` records which grant wrote each record; nothing in the protocol
    reads it. */
module JournalOwnership {
  import opened Wrappers
  import opened Bytes
  import opened Envelopes

  type Epoch = uint64

  /** What the provider does with one append: answers it, loses the
      acknowledgement with the record landed or not, or fails it definitely. */
  datatype Fate = Answered | AckLost(landed: bool) | FailedDefinitely

  datatype AppendOutcome = Landed | Conflict | Ambiguous | Failed

  /** An append names the tip it expects, and lands only on exactly that tip. */
  predicate Lands(tip: nat, expected: nat, fate: Fate) {
    tip == expected && (fate.Answered? || (fate.AckLost? && fate.landed))
  }

  function OutcomeOf(tip: nat, expected: nat, fate: Fate): AppendOutcome {
    match fate
    case Answered => if tip == expected then Landed else Conflict
    case AckLost(_) => Ambiguous
    case FailedDefinitely => Failed
  }

  /** A grant's life: issued, its one tip read taken, owning the stream at its
      own tracked sequence, or finished (spent, latched, closed or lost). */
  datatype Phase = Granted | TipTaken(tip: nat) | Owning(tracked: nat) | Finished

  datatype State = State(records: seq<Envelope>, authors: seq<Epoch>, issued: nat, writers: map<Epoch, Phase>)

  datatype Action =
    | Acquire(e: Epoch)
    | ReadTip(e: Epoch)
    | Fence(e: Epoch, fate: Fate)
    | Append(e: Epoch, env: Envelope, fate: Fate)
    | Finish(e: Epoch)

  const INITIAL := State([], [], 0, map[])

  /** The record as the writer stamps it: never a fence, and a command-carrying
      kind names the writer's own grant. */
  predicate StampedBy(env: Envelope, e: Epoch) {
    !env.IsFence() && (env.IsPrefix() || env.IsDisposition() ==> env.leaseEpoch == e)
  }

  predicate Enabled(s: State, a: Action) {
    match a
    case Acquire(e) => e > s.issued
    case ReadTip(e) => e in s.writers && s.writers[e] == Granted
    case Fence(e, _) => e in s.writers && s.writers[e].TipTaken?
    case Append(e, env, _) => e in s.writers && s.writers[e].Owning? && StampedBy(env, e)
    case Finish(e) => e in s.writers
  }

  function Write(s: State, e: Epoch, env: Envelope, lands: bool): State {
    if lands then s.(records := s.records + [env], authors := s.authors + [e]) else s
  }

  function Apply(s: State, a: Action): State
    requires Enabled(s, a)
  {
    var tip := |s.records|;
    match a
    case Acquire(e) => s.(issued := e, writers := s.writers[e := Granted])
    case ReadTip(e) => s.(writers := s.writers[e := TipTaken(tip)])
    case Fence(e, fate) =>
      var expected := s.writers[e].tip;
      var next := if OutcomeOf(tip, expected, fate) == Landed then Owning(expected + 1) else Finished;
      Write(s, e, OpeningFence(e), Lands(tip, expected, fate)).(writers := s.writers[e := next])
    case Append(e, env, fate) =>
      var expected := s.writers[e].tracked;
      var next := match OutcomeOf(tip, expected, fate)
                  case Landed => Owning(expected + 1)
                  case Failed => Owning(expected)
                  case _ => Finished;
      Write(s, e, env, Lands(tip, expected, fate)).(writers := s.writers[e := next])
    case Finish(e) => s.(writers := s.writers[e := Finished])
  }

  /** The state a schedule leads to, None when the schedule is not one. */
  function After(run: seq<Action>): Option<State> {
    if run == [] then Some(INITIAL)
    else
      var before := After(run[..|run| - 1]);
      if before.Some? && Enabled(before.value, run[|run| - 1]) then Some(Apply(before.value, run[|run| - 1]))
      else None
  }

  // ---- what every schedule keeps ------------------------------------------

  /** Every record is a fence that names its own writer, or continues the block
      of the record before it; no grant opens two blocks. */
  ghost predicate Blocks(records: seq<Envelope>, authors: seq<Epoch>) {
    && |authors| == |records|
    && (forall i :: 0 <= i < |records| && records[i].IsFence() ==> authors[i] == records[i].leaseEpoch)
    && (forall i :: 0 <= i < |records| && !records[i].IsFence() ==> i > 0 && authors[i] == authors[i - 1])
    && (forall i, j :: 0 <= i < j < |records| && records[i].IsFence() && records[j].IsFence() ==> authors[i] != authors[j])
  }

  ghost predicate WriterPlaced(s: State, e: Epoch)
    requires e in s.writers && |s.authors| == |s.records|
  {
    match s.writers[e]
    case Granted => e !in s.authors
    case TipTaken(tip) => e !in s.authors && tip <= |s.records|
    case Owning(tracked) => 1 <= tracked <= |s.records| && s.authors[tracked - 1] == e && e !in s.authors[tracked..]
    case Finished => true
  }

  ghost predicate Inv(s: State) {
    && Blocks(s.records, s.authors)
    && (forall i :: 0 <= i < |s.authors| ==> s.authors[i] in s.writers)
    && (forall i :: 0 <= i < |s.records| && !s.records[i].IsFence() ==> StampedBy(s.records[i], s.authors[i]))
    && (forall e :: e in s.writers ==> e <= s.issued && WriterPlaced(s, e))
  }

  /** A landed record either opens its grant's only block or continues the last. */
  lemma WriteKeepsBlocks(records: seq<Envelope>, authors: seq<Epoch>, e: Epoch, env: Envelope)
    requires Blocks(records, authors)
    requires if env.IsFence() then env.leaseEpoch == e && e !in authors
             else |records| > 0 && authors[|records| - 1] == e
    ensures Blocks(records + [env], authors + [e])
  {
  }

  /** A landed record leaves every other grant where it was. */
  lemma WriteKeepsOthersPlaced(s: State, t: State, e: Epoch, env: Envelope, x: Epoch)
    requires |s.authors| == |s.records| && t.records == s.records + [env] && t.authors == s.authors + [e]
    requires x != e && x in s.writers && x in t.writers && t.writers[x] == s.writers[x] && t.issued == s.issued
    requires WriterPlaced(s, x)
    ensures WriterPlaced(t, x)
  {
    if t.writers[x].Owning? {
      var tracked := t.writers[x].tracked;
      assert t.authors[tracked..] == s.authors[tracked..] + [e];
    }
  }

  /** A step that writes nothing and moves one grant to a phase that fits. */
  lemma MoveKeepsInv(s: State, t: State, e: Epoch)
    requires Inv(s) && t.records == s.records && t.authors == s.authors && s.issued <= t.issued
    requires e in t.writers && e <= t.issued && t.writers == s.writers[e := t.writers[e]] && WriterPlaced(t, e)
    ensures Inv(t)
  {
    forall x | x in t.writers ensures x <= t.issued && WriterPlaced(t, x) {
      if x != e { assert WriterPlaced(s, x); }
    }
  }

  /** A step that lands one record and moves its grant to a phase that fits. */
  lemma LandingKeepsInv(s: State, t: State, e: Epoch, env: Envelope)
    requires Inv(s) && t.records == s.records + [env] && t.authors == s.authors + [e] && t.issued == s.issued
    requires e in s.writers && e in t.writers && t.writers == s.writers[e := t.writers[e]] && |t.authors| == |t.records| && WriterPlaced(t, e)
    requires if env.IsFence() then env.leaseEpoch == e && e !in s.authors
             else |s.records| > 0 && s.authors[|s.records| - 1] == e && StampedBy(env, e)
    ensures Inv(t)
  {
    WriteKeepsBlocks(s.records, s.authors, e, env);
    forall x | x in t.writers ensures WriterPlaced(t, x) {
      if x != e {
        assert WriterPlaced(s, x);
        WriteKeepsOthersPlaced(s, t, e, env, x);
      }
    }
  }

  lemma AcquireKeepsInv(s: State, e: Epoch)
    requires Inv(s) && Enabled(s, Acquire(e))
    ensures Inv(Apply(s, Acquire(e)))
  {
    assert e !in s.writers;
    MoveKeepsInv(s, Apply(s, Acquire(e)), e);
  }

  lemma ReadTipKeepsInv(s: State, e: Epoch)
    requires Inv(s) && Enabled(s, ReadTip(e))
    ensures Inv(Apply(s, ReadTip(e)))
  {
    assert WriterPlaced(s, e);
    MoveKeepsInv(s, Apply(s, ReadTip(e)), e);
  }

  lemma FenceKeepsInv(s: State, e: Epoch, fate: Fate)
    requires Inv(s) && Enabled(s, Fence(e, fate))
    ensures Inv(Apply(s, Fence(e, fate)))
  {
    var t := Apply(s, Fence(e, fate));
    assert WriterPlaced(s, e);
    if Lands(|s.records|, s.writers[e].tip, fate) {
      assert t.authors[|s.records| + 1..] == [];
      LandingKeepsInv(s, t, e, OpeningFence(e));
    } else {
      MoveKeepsInv(s, t, e);
    }
  }

  lemma AppendKeepsInv(s: State, e: Epoch, env: Envelope, fate: Fate)
    requires Inv(s) && Enabled(s, Append(e, env, fate))
    ensures Inv(Apply(s, Append(e, env, fate)))
  {
    var t := Apply(s, Append(e, env, fate));
    assert WriterPlaced(s, e);
    if Lands(|s.records|, s.writers[e].tracked, fate) {
      assert t.authors[|s.records| + 1..] == [];
      LandingKeepsInv(s, t, e, env);
    } else {
      MoveKeepsInv(s, t, e);
    }
  }

  lemma InvStep(s: State, a: Action)
    requires Inv(s) && Enabled(s, a)
    ensures Inv(Apply(s, a))
    ensures s.records <= Apply(s, a).records && s.authors <= Apply(s, a).authors
  {
    match a
    case Acquire(e) => AcquireKeepsInv(s, e);
    case ReadTip(e) => ReadTipKeepsInv(s, e);
    case Fence(e, fate) => FenceKeepsInv(s, e, fate);
    case Append(e, env, fate) => AppendKeepsInv(s, e, env, fate);
    case Finish(e) => MoveKeepsInv(s, Apply(s, a), e);
  }

  /** What one step can write: nothing, its grant's fence, or one record of the
      grant that owns the tip. */
  lemma StepShape(s: State, a: Action)
    requires Inv(s) && Enabled(s, a)
    ensures var t, n := Apply(s, a), |s.records|;
            && |t.authors| == |t.records| <= n + 1
            && s.records <= t.records && s.authors <= t.authors
            && t.writers.Keys == s.writers.Keys + (if a.Acquire? then {a.e} else {})
            && (a.Acquire? ==> a.e !in s.writers)
            && (|t.records| > n ==>
                  && t.authors[n] == a.e
                  && ((a.Fence? && t.records[n].IsFence()) ||
                      (a.Append? && t.records[n] == a.env && s.writers[a.e] == Owning(n))))
  {
    InvStep(s, a);
  }

  lemma {:induction false} EveryRunKeepsInv(run: seq<Action>)
    requires After(run).Some?
    ensures Inv(After(run).value)
  {
    if run != [] {
      EveryRunKeepsInv(run[..|run| - 1]);
      InvStep(After(run[..|run| - 1]).value, run[|run| - 1]);
    }
  }

  /** The grant that wrote a record is the one its nearest preceding fence names. */
  function NearestFence(records: seq<Envelope>, n: nat): Epoch
    requires n <= |records|
  {
    if n == 0 then 0
    else if records[n - 1].IsFence() then records[n - 1].leaseEpoch
    else NearestFence(records, n - 1)
  }

  lemma {:induction false} AuthorIsNearestFence(records: seq<Envelope>, authors: seq<Epoch>, i: nat)
    requires Blocks(records, authors) && i < |records|
    ensures authors[i] == NearestFence(records, i + 1)
  {
    if !records[i].IsFence() {
      AuthorIsNearestFence(records, authors, i - 1);
    }
  }

  lemma {:induction false} BlockStart(records: seq<Envelope>, authors: seq<Epoch>, i: nat) returns (f: nat)
    requires Blocks(records, authors) && i < |records|
    ensures f <= i && records[f].IsFence() && authors[f] == authors[i]
    ensures forall j :: f <= j <= i ==> authors[j] == authors[i]
  {
    if records[i].IsFence() {
      f := i;
    } else {
      f := BlockStart(records, authors, i - 1);
    }
  }

  lemma OneBlockPerGrant(records: seq<Envelope>, authors: seq<Epoch>, i: nat, j: nat, k: nat)
    requires Blocks(records, authors) && i <= j <= k < |records| && authors[i] == authors[k]
    ensures authors[j] == authors[i]
  {
    var f := BlockStart(records, authors, i);
    var g := BlockStart(records, authors, k);
    assert f == g;
  }

  /** Through any schedule the ledger is a concatenation of contiguous per-grant
      blocks, each opened by that grant's one fence, and the recorded author of
      every record is the one its nearest preceding fence names. */
  lemma LedgerIsBlocks(run: seq<Action>, i: nat, j: nat, k: nat)
    requires After(run).Some?
    ensures var s := After(run).value;
            && Blocks(s.records, s.authors)
            && (i < |s.records| ==> s.authors[i] == NearestFence(s.records, i + 1))
            && (i <= j <= k < |s.records| && s.authors[i] == s.authors[k] ==> s.authors[j] == s.authors[i])
  {
    EveryRunKeepsInv(run);
    var s := After(run).value;
    if i < |s.records| { AuthorIsNearestFence(s.records, s.authors, i); }
    if i <= j <= k < |s.records| && s.authors[i] == s.authors[k] { OneBlockPerGrant(s.records, s.authors, i, j, k); }
  }

  // ---- fence order ----------------------------------------------------------

  ghost predicate Ascending(authors: seq<Epoch>) {
    forall i, j :: 0 <= i <= j < |authors| ==> authors[i] <= authors[j]
  }

  /** A grant that reads the tip while it is still the newest one issued. */
  predicate CurrentAtTipRead(s: State, a: Action) { a.ReadTip? ==> a.e == s.issued }

  ghost predicate FencesAscend(s: State) {
    && Ascending(s.authors)
    && forall e, i :: e in s.writers && s.writers[e].TipTaken? && 0 <= i < s.writers[e].tip && i < |s.authors| ==> s.authors[i] < e
  }

  lemma NewestAtTipRead(s: State, e: Epoch)
    requires Inv(s) && e in s.writers && s.writers[e] == Granted && e == s.issued
    ensures forall i :: 0 <= i < |s.authors| ==> s.authors[i] < e
  {
    forall i | 0 <= i < |s.authors| ensures s.authors[i] < e {
      assert WriterPlaced(s, s.authors[i]) && WriterPlaced(s, e);
      assert s.authors[i] in s.authors;
    }
  }

  /** A record written by a grant above, or equal to, the last to have written. */
  lemma AscendingAppend(authors: seq<Epoch>, e: Epoch)
    requires Ascending(authors) && (authors != [] ==> authors[|authors| - 1] <= e)
    ensures Ascending(authors + [e])
  {
  }

  lemma LastWriterBound(s: State, a: Action)
    requires Inv(s) && FencesAscend(s) && Enabled(s, a) && |Apply(s, a).records| > |s.records| > 0
    ensures s.authors[|s.authors| - 1] <= a.e
  {
    assert WriterPlaced(s, a.e);
  }

  lemma WrittenAscends(s: State, a: Action)
    requires Inv(s) && FencesAscend(s) && Enabled(s, a) && |Apply(s, a).records| > |s.records|
    ensures FencesAscend(Apply(s, a))
  {
    var t := Apply(s, a);
    StepShape(s, a);
    assert t.authors == s.authors + [a.e];
    if |s.records| > 0 { LastWriterBound(s, a); }
    AscendingAppend(s.authors, a.e);
    forall e, i | e in t.writers && t.writers[e].TipTaken? && 0 <= i < t.writers[e].tip && i < |t.authors| ensures t.authors[i] < e {
      assert e != a.e && t.writers[e] == s.writers[e] && WriterPlaced(s, e);
    }
  }

  lemma FencesAscendStep(s: State, a: Action)
    requires Inv(s) && FencesAscend(s) && Enabled(s, a) && CurrentAtTipRead(s, a)
    ensures FencesAscend(Apply(s, a))
  {
    if a.ReadTip? {
      NewestAtTipRead(s, a.e);
    } else if |Apply(s, a).records| > |s.records| {
      WrittenAscends(s, a);
    } else {
      assert Apply(s, a).authors == s.authors;
    }
  }

  /** Every tip read of a schedule is taken under the newest grant. */
  predicate CurrentRun(run: seq<Action>) {
    run == [] ||
    var before := After(run[..|run| - 1]);
    CurrentRun(run[..|run| - 1]) && (before.Some? ==> CurrentAtTipRead(before.value, run[|run| - 1]))
  }

  lemma {:induction false} CurrentRunsAscend(run: seq<Action>)
    requires After(run).Some? && CurrentRun(run)
    ensures FencesAscend(After(run).value)
  {
    if run != [] {
      var front := run[..|run| - 1];
      CurrentRunsAscend(front);
      EveryRunKeepsInv(front);
      FencesAscendStep(After(front).value, run[|run| - 1]);
    }
  }

  lemma {:induction false} LedgerOnlyGrows(run: seq<Action>, n: nat)
    requires n <= |run| && After(run).Some?
    ensures After(run[..n]).Some?
    ensures After(run[..n]).value.records <= After(run).value.records
    ensures After(run[..n]).value.authors <= After(run).value.authors
    decreases |run|
  {
    if n == |run| {
      assert run[..n] == run;
    } else {
      var front := run[..|run| - 1];
      LedgerOnlyGrows(front, n);
      assert front[..n] == run[..n];
      EveryRunKeepsInv(front);
      InvStep(After(front).value, run[|run| - 1]);
    }
  }

  /** A fence above a grant is permanent proof that the grant writes nothing
      after it, in every continuation of the schedule. */
  lemma FenceEndsLowerGrants(run: seq<Action>, n: nat, f: nat, e: Epoch, i: nat)
    requires n <= |run| && After(run).Some? && CurrentRun(run)
    requires After(run[..n]).Some?
    requires var s := After(run[..n]).value; f < |s.records| && s.records[f].IsFence() && s.records[f].leaseEpoch > e
    requires f <= i < |After(run).value.authors|
    ensures After(run).value.authors[i] != e
  {
    LedgerOnlyGrows(run, n);
    EveryRunKeepsInv(run);
    CurrentRunsAscend(run);
  }

  lemma AfterOneMore(run: seq<Action>, a: Action)
    ensures After(run).Some? && Enabled(After(run).value, a) ==> After(run + [a]) == Some(Apply(After(run).value, a))
  {
    assert (run + [a])[..|run|] == run;
  }

  /** Nothing re-checks that a grant is still the newest one when it reads the
      tip, and a stale one that reads it late opens a block below a successor's. */
  lemma StaleTipReadBreaksFenceOrder()
    ensures exists run :: After(run).Some? && !Ascending(After(run).value.authors)
  {
    var start := [Acquire(1), Acquire(2)];
    assert After([Acquire(1)]) == Some(Apply(INITIAL, Acquire(1)));
    AfterOneMore([Acquire(1)], Acquire(2));
    AfterOneMore(start, ReadTip(2));
    AfterOneMore(start + [ReadTip(2)], Fence(2, Answered));
    AfterOneMore(start + [ReadTip(2)] + [Fence(2, Answered)], ReadTip(1));
    AfterOneMore(start + [ReadTip(2)] + [Fence(2, Answered)] + [ReadTip(1)], Fence(1, Answered));
    var run := start + [ReadTip(2)] + [Fence(2, Answered)] + [ReadTip(1)] + [Fence(1, Answered)];
    var authors := After(run).value.authors;
    assert authors == [2, 1];
    assert authors[0] > authors[1];
    assert !Ascending(authors);
  }

  /** Some grant above `e` has fenced among the first `n` records. */
  ghost predicate FencedAbove(records: seq<Envelope>, n: nat, e: Epoch)
    requires n <= |records|
  {
    exists f :: 0 <= f < n && records[f].IsFence() && records[f].leaseEpoch > e
  }

  lemma FenceAboveOrAllBelow(s: State, e: Epoch, n: nat)
    requires Blocks(s.records, s.authors) && n <= |s.records| && e !in s.authors[..n]
    ensures FencedAbove(s.records, n, e) <==> exists i :: 0 <= i < n && s.authors[i] > e
    ensures !FencedAbove(s.records, n, e) ==> forall i :: 0 <= i < n ==> s.authors[i] < e
  {
    forall i | 0 <= i < n ensures s.authors[i] != e { assert s.authors[..n][i] == s.authors[i]; }
    if i :| 0 <= i < n && s.authors[i] > e {
      var f := BlockStart(s.records, s.authors, i);
      assert s.records[f].leaseEpoch == s.authors[f];
    }
  }

  /** A fence that lands breaks the order exactly when what its own tip read covered
      already held a fence above its grant: something the opener could have looked for,
      and does not. */
  lemma FenceOrderKeptExactlyWhen(s: State, e: Epoch, fate: Fate)
    requires Inv(s) && Ascending(s.authors) && Enabled(s, Fence(e, fate))
    requires Lands(|s.records|, s.writers[e].tip, fate)
    ensures s.writers[e].tip <= |s.records|
    ensures Ascending(Apply(s, Fence(e, fate)).authors) <==> !FencedAbove(s.records, s.writers[e].tip, e)
  {
    var t := Apply(s, Fence(e, fate));
    assert WriterPlaced(s, e);
    assert t.authors == s.authors + [e] && s.authors[..|s.authors|] == s.authors;
    FenceAboveOrAllBelow(s, e, |s.records|);
    if Ascending(t.authors) {
      forall i | 0 <= i < |s.authors| ensures s.authors[i] <= e {
        assert t.authors[i] <= t.authors[|s.authors|];
      }
    }
  }
}
