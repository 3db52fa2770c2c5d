/** What a session's journal proves about one command: the one-pass scan, its
    declarative meaning, and what a longer journal may change. */
module Recovery {
  import opened Wrappers
  import opened Bytes
  import opened Envelopes

  datatype CommandApplicationOutcome = Absent | Abandoned | Unresolved | Committed | Conflicted

  function Precedence(outcome: CommandApplicationOutcome): nat {
    match outcome
    case Conflicted => 4
    case Committed => 3
    case Unresolved => 2
    case Abandoned => 1
    case Absent => 0
  }

  /** The identities a scan correlates on. `runtime` is the parsed runtime
      mapping of the stored record, the zero UUID when it does not parse. */
  datatype CommandKey = CommandKey(commandID: Text, runtime: Uuid16, kind: Text)

  /** One prefix's finding. The effect travels with it. */
  datatype Finding = Finding(
    outcome: CommandApplicationOutcome,
    prefixSeq: nat,
    prefixEpoch: nat,
    effectSeq: nat,
    effectEventID: Text)

  const NOTHING_FOUND := Finding(Absent, 0, 0, 0, [])

  datatype CommandApplication = CommandApplication(finding: Finding, supersedingEpoch: nat, capturedTip: nat) {
    predicate ProvesNoEffect() { finding.outcome == Absent || finding.outcome == Abandoned }

    predicate Fences(epoch: nat) { supersedingEpoch > epoch }

    predicate NamesEffect(eventID: Text, journalSeq: nat) {
      finding.outcome == Committed && finding.effectEventID == eventID && finding.effectSeq == journalSeq
    }
  }

  /** A record as the provider's cursor hands it back. */
  datatype Stored = Stored(seqNo: nat, payload: seq<byte>)

  datatype JournalError = Integrity | BadCursor | Invalid | TooLarge | Backend

  // ---- what one prefix proves -------------------------------------------

  predicate Names(env: Envelope, key: CommandKey) {
    env.IsPrefix() && env.commandID == key.commandID
  }

  predicate Correlates(env: Envelope, key: CommandKey) {
    env.runtimeCommandID == key.runtime && env.commandKind == key.kind
  }

  /** What the single record after a correlated prefix says became of it. */
  function Resolution(prefixSeq: nat, prefixEpoch: nat, seqNo: nat, env: Envelope): Finding {
    if env.IsPublicEvent() then Finding(Committed, prefixSeq, prefixEpoch, seqNo, env.eventID)
    else if env.IsFence() && env.leaseEpoch > prefixEpoch then Finding(Abandoned, prefixSeq, prefixEpoch, 0, [])
    else Finding(Unresolved, prefixSeq, prefixEpoch, 0, [])
  }

  /** The finding of the prefix at position `p` (sequence p + 1) of `journal`. */
  function FindingAt(journal: seq<Envelope>, key: CommandKey, p: nat): Finding
    requires p < |journal|
  {
    var seqNo, epoch := p + 1, journal[p].leaseEpoch;
    if !Correlates(journal[p], key) then Finding(Conflicted, seqNo, epoch, 0, [])
    else if p > 0 && journal[p - 1].IsPrefix() then Finding(Unresolved, seqNo, epoch, 0, [])
    else if p + 1 == |journal| then Finding(Unresolved, seqNo, epoch, 0, [])
    else Resolution(seqNo, epoch, p + 2, journal[p + 1])
  }

  /** Keeps the finding of higher precedence and, among equals, the later one. */
  function Keep(held: Finding, next: Finding): Finding {
    if Precedence(next.outcome) < Precedence(held.outcome) then held else next
  }

  function Best(journal: seq<Envelope>, key: CommandKey, n: nat): Finding
    requires n <= |journal|
  {
    if n == 0 then NOTHING_FOUND
    else if Names(journal[n - 1], key) then Keep(Best(journal, key, n - 1), FindingAt(journal, key, n - 1))
    else Best(journal, key, n - 1)
  }

  function FenceMax(journal: seq<Envelope>, n: nat): nat
    requires n <= |journal|
  {
    if n == 0 then 0
    else
      var rest := FenceMax(journal, n - 1);
      if journal[n - 1].IsFence() && journal[n - 1].leaseEpoch > rest then journal[n - 1].leaseEpoch else rest
  }

  /** What a scan of exactly `journal` reports. */
  function Correlate(journal: seq<Envelope>, key: CommandKey): CommandApplication {
    CommandApplication(Best(journal, key, |journal|), FenceMax(journal, |journal|), |journal|)
  }

  // ---- the scan ---------------------------------------------------------

  type Decoder = seq<byte> -> Option<Envelope>

  /** The walk meets its bound: it reaches a record at `tip`, nothing before it
      lies at or beyond `tip`, and everything through it decodes. */
  ghost predicate ReachesTip(stream: seq<Stored>, tip: nat, decode: Decoder) {
    exists k :: 0 <= k < |stream| && ReachesTipAt(stream, tip, decode, k)
  }

  ghost predicate ReachesTipAt(stream: seq<Stored>, tip: nat, decode: Decoder, k: nat)
    requires k < |stream|
  {
    && stream[k].seqNo == tip
    && (forall i :: 0 <= i < k ==> stream[i].seqNo < tip)
    && (forall i :: 0 <= i <= k ==> decode(stream[i].payload).Some?)
  }

  /** A conforming cursor over `journal`: dense sequences from 1, through the tip
      at least. */
  ghost predicate Delivers(stream: seq<Stored>, journal: seq<Envelope>, decode: Decoder) {
    && |journal| <= |stream|
    && (forall i {:trigger stream[i]} :: 0 <= i < |journal| ==> stream[i].seqNo == i + 1)
    && (forall i {:trigger journal[i]} :: 0 <= i < |journal| ==> decode(stream[i].payload) == Some(journal[i]))
  }

  /** A matched prefix held until the next record says what became of it. */
  datatype CorrelatedPrefix = CorrelatedPrefix(seqNo: nat, epoch: nat)

  /** How far the loop has got over a conforming stream: everything before
      record `k` is folded in, except a matched prefix still awaiting `k`. */
  ghost predicate ScannedThrough(journal: seq<Envelope>, key: CommandKey, k: nat, found: Finding,
                                 pending: Option<CorrelatedPrefix>, prefixBefore: bool)
    requires k <= |journal|
  {
    && prefixBefore == (k > 0 && journal[k - 1].IsPrefix())
    && match pending
       case None => found == Best(journal, key, k)
       case Some(held) =>
         && k > 0 && Names(journal[k - 1], key) && Correlates(journal[k - 1], key)
         && !(k > 1 && journal[k - 2].IsPrefix())
         && held == CorrelatedPrefix(k, journal[k - 1].leaseEpoch)
         && found == Best(journal, key, k - 1)
  }

  /** One record folded in: the pending prefix is resolved by it, then the record
      itself is a prefix, a naming one, or neither. */
  lemma ScanStep(journal: seq<Envelope>, key: CommandKey, k: nat, found: Finding,
                 pending: Option<CorrelatedPrefix>, prefixBefore: bool)
    requires k < |journal| && ScannedThrough(journal, key, k, found, pending, prefixBefore)
    ensures ScanStepDone(journal, key, k, found, pending, prefixBefore)
  {
  }

  ghost predicate ScanStepDone(journal: seq<Envelope>, key: CommandKey, k: nat, found: Finding,
                               pending: Option<CorrelatedPrefix>, prefixBefore: bool)
    requires k < |journal|
  {
    var env := journal[k];
    var resolved := if pending.Some? then Keep(found, Resolution(pending.value.seqNo, pending.value.epoch, k + 1, env))
                    else found;
    if !Names(env, key) then ScannedThrough(journal, key, k + 1, resolved, None, env.IsPrefix())
    else if !Correlates(env, key) then
      ScannedThrough(journal, key, k + 1, Keep(resolved, Finding(Conflicted, k + 1, env.leaseEpoch, 0, [])), None, true)
    else if prefixBefore then
      ScannedThrough(journal, key, k + 1, Keep(resolved, Finding(Unresolved, k + 1, env.leaseEpoch, 0, [])), None, true)
    else ScannedThrough(journal, key, k + 1, resolved, Some(CorrelatedPrefix(k + 1, env.leaseEpoch)), true)
  }

  /** What one walk has accumulated: the finding so far, the highest fence, and the
      matched prefix awaiting the next record. Each operation overwrites fields. */
  class ApplicationScan {
    var outcome: CommandApplicationOutcome
    var prefixSeq: nat
    var prefixEpoch: nat
    var effectSeq: nat
    var effectEventID: Text
    var supersedingEpoch: nat
    var pending: Option<CorrelatedPrefix>
    var prefixBefore: bool

    function Found(): Finding reads this {
      Finding(outcome, prefixSeq, prefixEpoch, effectSeq, effectEventID)
    }

    /** Everything before record `k` of `journal` is folded in, except a matched
        prefix still awaiting record `k`. */
    ghost predicate Through(journal: seq<Envelope>, key: CommandKey, k: nat)
      requires k <= |journal|
      reads this
    {
      ScannedThrough(journal, key, k, Found(), pending, prefixBefore) && supersedingEpoch == FenceMax(journal, k)
    }

    constructor ()
      ensures Found() == NOTHING_FOUND && supersedingEpoch == 0 && pending == None && !prefixBefore
    {
      outcome, prefixSeq, prefixEpoch, effectSeq, effectEventID := Absent, 0, 0, 0, [];
      supersedingEpoch, pending, prefixBefore := 0, None, false;
    }

    method Observe(next: Finding)
      modifies this`outcome, this`prefixSeq, this`prefixEpoch, this`effectSeq, this`effectEventID
      ensures Found() == Keep(old(Found()), next)
    {
      if Precedence(next.outcome) < Precedence(outcome) {
        return;
      }
      outcome := next.outcome;
      prefixSeq, prefixEpoch := next.prefixSeq, next.prefixEpoch;
      effectSeq, effectEventID := next.effectSeq, next.effectEventID;
    }

    /** Folds in the next record of the walk. */
    method Absorb(key: CommandKey, seqNo: nat, env: Envelope)
      modifies this
      ensures forall journal, k ::
                (0 <= k < |journal| && old(Through(journal, key, k)) && seqNo == k + 1 && env == journal[k]) ==>
                Through(journal, key, k + 1)
    {
      ghost var before, held, stacked := Found(), pending, prefixBefore;
      forall journal, k | 0 <= k < |journal| && old(Through(journal, key, k)) && seqNo == k + 1 && env == journal[k]
        ensures ScanStepDone(journal, key, k, before, held, stacked)
      {
        ScanStep(journal, key, k, before, held, stacked);
      }
      if env.IsFence() && env.leaseEpoch > supersedingEpoch {
        supersedingEpoch := env.leaseEpoch;
      }
      if pending.Some? {
        Observe(Resolution(pending.value.seqNo, pending.value.epoch, seqNo, env));
        pending := None;
      }
      if Names(env, key) {
        if !Correlates(env, key) {
          Observe(Finding(Conflicted, seqNo, env.leaseEpoch, 0, []));
        } else if prefixBefore {
          Observe(Finding(Unresolved, seqNo, env.leaseEpoch, 0, []));
        } else {
          pending := Some(CorrelatedPrefix(seqNo, env.leaseEpoch));
        }
      }
      prefixBefore := env.IsPrefix();
    }

    /** A prefix at the tip has no record after it to say what became of it. */
    method Finish(key: CommandKey, tip: nat) returns (app: CommandApplication)
      modifies this`outcome, this`prefixSeq, this`prefixEpoch, this`effectSeq, this`effectEventID
      ensures app.capturedTip == tip
      ensures forall journal :: |journal| == tip && old(Through(journal, key, tip)) ==> app == Correlate(journal, key)
    {
      if pending.Some? {
        Observe(Finding(Unresolved, pending.value.seqNo, pending.value.epoch, 0, []));
      }
      app := CommandApplication(Found(), supersedingEpoch, tip);
    }
  }

  /** Everything before record `k` lies short of the tip, and nothing can follow:
      the stream ends there, passes the tip, or does not decode. */
  lemma EndsShort(stream: seq<Stored>, tip: nat, decode: Decoder, k: nat)
    requires k <= |stream| && forall i :: 0 <= i < k ==> stream[i].seqNo < tip
    requires k == |stream| || stream[k].seqNo > tip || decode(stream[k].payload).None?
    ensures !ReachesTip(stream, tip, decode)
  {
    forall j | 0 <= j < |stream| ensures !ReachesTipAt(stream, tip, decode, j) {}
  }

  /** The record loop: None when the walk cannot meet its bound. `journal` is any
      journal this stream might be delivering. */
  method WalkToTip(key: CommandKey, tip: nat, stream: seq<Stored>, decode: Decoder, app: ApplicationScan, ghost journal: seq<Envelope>)
    returns (reached: bool)
    requires tip > 0
    requires |journal| == tip && Delivers(stream, journal, decode) ==> app.Through(journal, key, 0)
    modifies app
    ensures reached <==> ReachesTip(stream, tip, decode)
    ensures |journal| == tip && Delivers(stream, journal, decode) ==> reached && app.Through(journal, key, tip)
  {
    ghost var conforming := |journal| == tip && Delivers(stream, journal, decode);
    var last := 0;
    var k := 0;
    while k < |stream| && stream[k].seqNo <= tip && last < tip
      invariant 0 <= k <= |stream| && last <= tip
      invariant last == if k == 0 then 0 else stream[k - 1].seqNo
      invariant forall i :: 0 <= i < k ==> stream[i].seqNo < tip || (i == k - 1 && last == tip)
      invariant forall i :: 0 <= i < k ==> decode(stream[i].payload).Some?
      invariant conforming ==> k <= tip && last == k && app.Through(journal, key, k)
      decreases |stream| - k
    {
      assert conforming ==> stream[k].seqNo == k + 1 && decode(stream[k].payload) == Some(journal[k]);
      last := stream[k].seqNo;
      var decoded := decode(stream[k].payload);
      if decoded.None? {
        EndsShort(stream, tip, decode, k);
        return false;
      }
      app.Absorb(key, stream[k].seqNo, decoded.value);
      k := k + 1;
    }
    if last < tip {
      EndsShort(stream, tip, decode, k);
      return false;
    }
    assert ReachesTipAt(stream, tip, decode, k - 1);
    reached := true;
  }

  /** A record at the tip, with nothing past the tip or undecodable up to it. */
  predicate WholeThrough(stream: seq<Stored>, tip: nat, decode: Decoder, k: nat)
    requires k < |stream|
  {
    stream[k].seqNo == tip && forall i :: 0 <= i <= k ==> stream[i].seqNo <= tip && decode(stream[i].payload).Some?
  }

  lemma {:induction false} WholeMeansReached(stream: seq<Stored>, tip: nat, decode: Decoder, k: nat)
    requires k < |stream| && WholeThrough(stream, tip, decode, k)
    ensures ReachesTip(stream, tip, decode)
  {
    if i :| 0 <= i < k && stream[i].seqNo == tip {
      WholeMeansReached(stream, tip, decode, i);
    } else {
      assert ReachesTipAt(stream, tip, decode, k);
    }
  }

  lemma ReachedExactlyWhenWhole(stream: seq<Stored>, tip: nat, decode: Decoder)
    ensures ReachesTip(stream, tip, decode) <==> exists k :: 0 <= k < |stream| && WholeThrough(stream, tip, decode, k)
  {
    if k :| 0 <= k < |stream| && WholeThrough(stream, tip, decode, k) { WholeMeansReached(stream, tip, decode, k); }
    if k :| 0 <= k < |stream| && ReachesTipAt(stream, tip, decode, k) { assert WholeThrough(stream, tip, decode, k); }
  }

  /** One walk of the journal, over whatever stream the provider hands back. */
  method ScanCommandApplication(key: CommandKey, tip: nat, stream: seq<Stored>, decode: Decoder)
    returns (r: Result<CommandApplication, JournalError>)
    ensures r.Ok? <==> tip == 0 || ReachesTip(stream, tip, decode)
    ensures r.Err? ==> r.error == Integrity
    ensures r.Ok? <==> tip == 0 || exists k :: 0 <= k < |stream| && WholeThrough(stream, tip, decode, k)
    ensures forall journal :: |journal| == tip && Delivers(stream, journal, decode) ==> r == Ok(Correlate(journal, key))
  {
    ReachedExactlyWhenWhole(stream, tip, decode);
    if tip == 0 {
      return Ok(CommandApplication(NOTHING_FOUND, 0, 0));
    }
    ghost var journal: seq<Envelope> := [];
    if other :| |other| == tip && Delivers(stream, other, decode) {
      journal := other;
      assert forall j :: |j| == tip && Delivers(stream, j, decode) ==> j == journal;
    }
    var app := new ApplicationScan();
    var reached := WalkToTip(key, tip, stream, decode, app, journal);
    if !reached {
      return Err(Integrity);
    }
    var found := app.Finish(key, tip);
    r := Ok(found);
  }

  // ---- its declarative meaning -------------------------------------------

  /** `best` is what the prefix at `p` found, and every other naming prefix among
      the first `n` records yields to it: lower precedence, or equal and earlier. */
  ghost predicate Leads(journal: seq<Envelope>, key: CommandKey, n: nat, p: nat, best: Finding) {
    && p < n <= |journal|
    && Names(journal[p], key)
    && best == FindingAt(journal, key, p)
    && forall q :: 0 <= q < n && Names(journal[q], key) ==> Yields(journal, key, q, p, best)
  }

  ghost predicate Yields(journal: seq<Envelope>, key: CommandKey, q: nat, p: nat, best: Finding)
    requires q < |journal|
  {
    var there := Precedence(FindingAt(journal, key, q).outcome);
    there < Precedence(best.outcome) || (there == Precedence(best.outcome) && q <= p)
  }

  ghost predicate Unnamed(journal: seq<Envelope>, key: CommandKey, n: nat)
    requires n <= |journal|
  {
    forall q :: 0 <= q < n ==> !Names(journal[q], key)
  }

  lemma {:induction false} BestMeaning(journal: seq<Envelope>, key: CommandKey, n: nat)
    requires n <= |journal|
    ensures if Unnamed(journal, key, n) then Best(journal, key, n) == NOTHING_FOUND
            else exists p :: Leads(journal, key, n, p, Best(journal, key, n))
  {
    if n > 0 {
      BestMeaning(journal, key, n - 1);
      var held, best := Best(journal, key, n - 1), Best(journal, key, n);
      if !Unnamed(journal, key, n) {
        if Names(journal[n - 1], key) && best == FindingAt(journal, key, n - 1) {
          if !Unnamed(journal, key, n - 1) {
            var p :| Leads(journal, key, n - 1, p, held);
            assert Precedence(held.outcome) <= Precedence(best.outcome);
          }
          assert Leads(journal, key, n, n - 1, best);
        } else {
          var p :| Leads(journal, key, n - 1, p, held);
          assert Leads(journal, key, n, p, best);
        }
      }
    }
  }

  lemma {:induction false} FenceMaxMeaning(journal: seq<Envelope>, n: nat)
    requires n <= |journal|
    ensures forall i :: 0 <= i < n && journal[i].IsFence() ==> journal[i].leaseEpoch <= FenceMax(journal, n)
    ensures FenceMax(journal, n) > 0 ==>
              exists i :: 0 <= i < n && journal[i].IsFence() && journal[i].leaseEpoch == FenceMax(journal, n)
  {
    if n > 0 {
      FenceMaxMeaning(journal, n - 1);
    }
  }

  /** The scan reports the leading prefix's finding, absence exactly when no
      prefix names the command, an effect exactly when it is a committed one, and
      the exact fence maximum. */
  lemma ScanMeaning(journal: seq<Envelope>, key: CommandKey)
    ensures var app := Correlate(journal, key);
            && (app.finding.outcome == Absent <==> Unnamed(journal, key, |journal|))
            && (app.finding.outcome == Absent ==> app.finding == NOTHING_FOUND)
            && (app.finding.outcome != Absent ==> exists p :: Leads(journal, key, |journal|, p, app.finding))
            && (app.finding.effectSeq != 0 <==> app.finding.outcome == Committed)
            && (forall i :: 0 <= i < |journal| && journal[i].IsFence() ==> journal[i].leaseEpoch <= app.supersedingEpoch)
            && (app.supersedingEpoch > 0 ==>
                  exists i :: 0 <= i < |journal| && journal[i].IsFence() && journal[i].leaseEpoch == app.supersedingEpoch)
  {
    BestMeaning(journal, key, |journal|);
    FenceMaxMeaning(journal, |journal|);
  }

  /** Only one prefix leads, so the finding above is the only one there is. */
  lemma LeaderIsUnique(journal: seq<Envelope>, key: CommandKey, p: nat, best: Finding, q: nat, other: Finding)
    requires Leads(journal, key, |journal|, p, best) && Leads(journal, key, |journal|, q, other)
    ensures p == q && best == other
  {
    assert Yields(journal, key, q, p, best) && Yields(journal, key, p, q, other);
  }

  // ---- the outcome, read off the journal --------------------------------------

  predicate IsPrefixFor(env: Envelope, commandID: Text) { env.kind == KIND_APPLICATION_PREFIX && env.commandID == commandID }

  /** A prefix that names the command under another runtime identity or kind. */
  predicate MismatchAt(journal: seq<Envelope>, key: CommandKey, p: nat) {
    && p < |journal| && IsPrefixFor(journal[p], key.commandID)
    && !(journal[p].runtimeCommandID == key.runtime && journal[p].commandKind == key.kind)
  }

  /** The command's own prefix, with no prefix before it and a record after it. */
  predicate AnsweredAt(journal: seq<Envelope>, key: CommandKey, p: nat) {
    && p + 1 < |journal| && IsPrefixFor(journal[p], key.commandID)
    && journal[p].runtimeCommandID == key.runtime && journal[p].commandKind == key.kind
    && (p == 0 || journal[p - 1].kind != KIND_APPLICATION_PREFIX)
  }

  /** Its effect is the very next record. */
  predicate EffectAfter(journal: seq<Envelope>, key: CommandKey, p: nat) {
    AnsweredAt(journal, key, p) && journal[p + 1].kind == KIND_PUBLIC_EVENT
  }

  /** Its writer was superseded before it wrote the effect. */
  predicate SupersededAfter(journal: seq<Envelope>, key: CommandKey, p: nat) {
    AnsweredAt(journal, key, p) && journal[p + 1].kind == KIND_OPENING_FENCE && journal[p + 1].leaseEpoch > journal[p].leaseEpoch
  }

  ghost predicate AnyMismatch(journal: seq<Envelope>, key: CommandKey) { exists p: nat :: MismatchAt(journal, key, p) }

  /** The last effect the command has in the journal. */
  ghost predicate LastEffectAt(journal: seq<Envelope>, key: CommandKey, p: nat) {
    EffectAfter(journal, key, p) && forall q: nat :: EffectAfter(journal, key, q) ==> q <= p
  }

  ghost predicate EveryPrefixSuperseded(journal: seq<Envelope>, key: CommandKey) {
    forall p: nat :: p < |journal| && IsPrefixFor(journal[p], key.commandID) ==> SupersededAfter(journal, key, p)
  }

  ghost predicate FencedAbove(journal: seq<Envelope>, epoch: nat) {
    exists i :: 0 <= i < |journal| && journal[i].kind == KIND_OPENING_FENCE && journal[i].leaseEpoch > epoch
  }

  lemma FindingMeaning(journal: seq<Envelope>, key: CommandKey, p: nat)
    requires p < |journal| && Names(journal[p], key)
    ensures IsPrefixFor(journal[p], key.commandID)
    ensures var f := FindingAt(journal, key, p);
            && f.prefixSeq == p + 1 && f.prefixEpoch == journal[p].leaseEpoch
            && (f.outcome == Conflicted <==> MismatchAt(journal, key, p))
            && (f.outcome == Committed <==> EffectAfter(journal, key, p))
            && (f.outcome == Abandoned <==> SupersededAfter(journal, key, p))
            && f.outcome != Absent
            && (f.outcome == Committed ==> f.effectSeq == p + 2 && f.effectEventID == journal[p + 1].eventID)
            && (f.outcome != Committed ==> f.effectSeq == 0 && f.effectEventID == [])
  {
  }

  /** The scan's answer is settled by the journal's bytes alone: a mismatched prefix
      anywhere is a conflict; failing that, an effect right after the command's own
      prefix commits it, and the last such effect is the one named; failing that, a
      prefix not known to be superseded leaves it unresolved; and no effect is proved
      exactly when every prefix there is ran into a strictly higher fence. */
  lemma ScanDecidesExactly(journal: seq<Envelope>, key: CommandKey)
    ensures var f := Correlate(journal, key).finding;
            && (f.outcome == Conflicted <==> AnyMismatch(journal, key))
            && (f.outcome == Committed <==> !AnyMismatch(journal, key) && exists p: nat :: EffectAfter(journal, key, p))
            && (f.outcome == Committed ==>
                  exists p: nat :: LastEffectAt(journal, key, p)
                                   && f == Finding(Committed, p + 1, journal[p].leaseEpoch, p + 2, journal[p + 1].eventID))
            && (f.outcome == Absent <==> forall p: nat :: p < |journal| ==> !IsPrefixFor(journal[p], key.commandID))
            && (Correlate(journal, key).ProvesNoEffect() <==> EveryPrefixSuperseded(journal, key))
  {
    var f := Correlate(journal, key).finding;
    BestMeaning(journal, key, |journal|);
    forall p: nat | p < |journal| && IsPrefixFor(journal[p], key.commandID)
      ensures Names(journal[p], key) && !Unnamed(journal, key, |journal|) && FindingLike(journal, key, p)
      ensures Precedence(FindingAt(journal, key, p).outcome) <= Precedence(f.outcome)
    {
      assert Names(journal[p], key);
      FindingMeaning(journal, key, p);
      var leader: nat :| Leads(journal, key, |journal|, leader, f);
      assert Yields(journal, key, p, leader, f);
    }
    if !Unnamed(journal, key, |journal|) {
      var leader: nat :| Leads(journal, key, |journal|, leader, f);
      FindingMeaning(journal, key, leader);
      assert FindingLike(journal, key, leader);
      if f.outcome == Committed {
        forall q: nat | EffectAfter(journal, key, q) ensures q <= leader {
          assert IsPrefixFor(journal[q], key.commandID);
          assert Yields(journal, key, q, leader, f);
        }
        assert LastEffectAt(journal, key, leader);
      }
    }
  }

  ghost predicate FindingLike(journal: seq<Envelope>, key: CommandKey, p: nat)
    requires p < |journal|
  {
    var outcome := FindingAt(journal, key, p).outcome;
    && (outcome == Conflicted <==> MismatchAt(journal, key, p)) && (outcome == Committed <==> EffectAfter(journal, key, p))
    && (outcome == Abandoned <==> SupersededAfter(journal, key, p)) && outcome != Absent
  }

  /** What a scan answers its callers: an epoch is fenced exactly when a higher fence is
      in the journal, and an effect is named exactly when it is the last there is. */
  lemma ScanAnswers(journal: seq<Envelope>, key: CommandKey, epoch: nat, eventID: Text, seqNo: nat)
    ensures Correlate(journal, key).Fences(epoch) <==> FencedAbove(journal, epoch)
    ensures Correlate(journal, key).NamesEffect(eventID, seqNo) <==>
              && !AnyMismatch(journal, key) && seqNo >= 2 && LastEffectAt(journal, key, seqNo - 2)
              && journal[seqNo - 1].eventID == eventID
  {
    ScanDecidesExactly(journal, key);
    FenceMaxMeaning(journal, |journal|);
    var app := Correlate(journal, key);
    if app.finding.outcome == Committed {
      var p: nat :| LastEffectAt(journal, key, p)
                    && app.finding == Finding(Committed, p + 1, journal[p].leaseEpoch, p + 2, journal[p + 1].eventID);
    }
  }

  // ---- what a longer journal may change -------------------------------------

  /** A prefix whose next record is already durable keeps its finding forever. */
  lemma FindingIsFinal(journal: seq<Envelope>, later: seq<Envelope>, key: CommandKey, p: nat)
    requires journal <= later && p + 1 < |journal|
    ensures FindingAt(later, key, p) == FindingAt(journal, key, p)
  {
  }

  lemma {:induction false} FenceMaxGrows(journal: seq<Envelope>, later: seq<Envelope>, n: nat, m: nat)
    requires journal <= later && n <= m && n <= |journal| && m <= |later|
    ensures FenceMax(journal, n) <= FenceMax(later, m)
  {
    FenceMaxMeaning(journal, n);
    FenceMaxMeaning(later, m);
    if FenceMax(journal, n) > 0 {
      var i :| 0 <= i < n && journal[i].IsFence() && journal[i].leaseEpoch == FenceMax(journal, n);
      assert later[i] == journal[i];
    }
  }

  /** A conflict or a commitment is still there, at the same position. */
  lemma StrongFindingsSurvive(journal: seq<Envelope>, later: seq<Envelope>, key: CommandKey)
    requires journal <= later
    requires Precedence(Correlate(journal, key).finding.outcome) >= 3
    ensures Precedence(Correlate(journal, key).finding.outcome) <= Precedence(Correlate(later, key).finding.outcome)
  {
    var before, after := Correlate(journal, key).finding, Correlate(later, key).finding;
    BestMeaning(journal, key, |journal|);
    BestMeaning(later, key, |later|);
    var p: nat :| Leads(journal, key, |journal|, p, before);
    assert FindingAt(later, key, p).outcome == before.outcome;
    assert Names(later[p], key) && !Unnamed(later, key, |later|);
    var q: nat :| Leads(later, key, |later|, q, after);
    assert Yields(later, key, p, q, after);
  }

  /** A scan that proved no effect found every naming prefix followed by a fence
      above it, and that is durable. */
  lemma NoEffectIsDurable(journal: seq<Envelope>, later: seq<Envelope>, key: CommandKey, p: nat)
    requires journal <= later && Correlate(journal, key).ProvesNoEffect()
    requires p < |journal| && Names(later[p], key)
    ensures p + 1 < |journal| && FindingAt(later, key, p).outcome == Abandoned
  {
    BestMeaning(journal, key, |journal|);
    assert later[p] == journal[p];
    var leader: nat :| Leads(journal, key, |journal|, leader, Best(journal, key, |journal|));
    assert Yields(journal, key, p, leader, Best(journal, key, |journal|));
    FindingIsFinal(journal, later, key, p);
  }

  /** Under extension a conflict stays a conflict, a commitment becomes only a
      commitment or a conflict, and a fenced epoch stays fenced. */
  lemma ScanUnderExtension(journal: seq<Envelope>, later: seq<Envelope>, key: CommandKey, epoch: nat)
    requires journal <= later
    ensures var before, after := Correlate(journal, key), Correlate(later, key);
            && (before.finding.outcome == Conflicted ==> after.finding.outcome == Conflicted)
            && (before.finding.outcome == Committed ==>
                  after.finding.outcome == Committed || after.finding.outcome == Conflicted)
            && before.supersedingEpoch <= after.supersedingEpoch
            && (before.Fences(epoch) ==> after.Fences(epoch))
  {
    FenceMaxGrows(journal, later, |journal|, |later|);
    if Precedence(Correlate(journal, key).finding.outcome) >= 3 {
      StrongFindingsSurvive(journal, later, key);
    }
  }
}
