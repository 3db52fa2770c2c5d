/** The evidence search over the runtime journal's own pages. The nearest fence may
    lie on an earlier page than the disposition it authorizes, so the search carries
    it across pages, and the answer is that of one unpaged snapshot. */
module DispositionEvidence {
  import opened Wrappers
  import opened Bytes
  import opened Envelopes
  import opened Cursors
  import opened JournalReader
  import opened Dispositions
  import Recovery
  import I = Inbox
  import J = JournalOwnership
  import S = DispositionStores
  import opened Storage
  import opened Clock

  type Decoder = Recovery.Decoder

  /** A runtime page holds every record, at the cost of its stored frame. */
  function RuntimeView(decode: Decoder): View<RuntimeRecord> {
    (seqNo: nat, frame: seq<byte>) =>
      var env := decode(frame);
      if env.None? then Undecodable else Selected(RuntimeRecord(seqNo, env.value), |frame|)
  }

  datatype RuntimePage = RuntimePage(records: seq<RuntimeRecord>, next: Option<Text>)

  /** One page as its caller meets it: its records, and the cursor to the next. */
  function ReadRuntimeJournal(decode: Decoder, kind: Magic4, scope: Digest32, req: ReadRequest, turn: Turn)
    : Result<RuntimePage, Recovery.JournalError>
  {
    var plan := PlanOf(turn, kind, scope, req);
    if plan.Err? then Err(plan.error)
    else if plan.value.from < 1 || plan.value.capturedTip > |turn.journal| then Err(Recovery.Invalid)
    else
      var page := ReadPage(plan.value, turn.journal, RuntimeView(decode));
      if page.Err? then Err(page.error)
      else if !page.value.truncated then Ok(RuntimePage(page.value.items, None))
      else if page.value.nextSeq >= TWO_TO_THE_64 || plan.value.capturedTip >= TWO_TO_THE_64 then Err(Recovery.Invalid)
      else Ok(RuntimePage(page.value.items,
                          Some(EncodeJournalCursor(kind, scope, JournalCursorPosition(page.value.nextSeq, plan.value.capturedTip)))))
  }

  const FIRST_PAGE := ReadRequest(0, [], 0, false, 0)

  function NextPage(cursor: Text): ReadRequest { ReadRequest(0, cursor, 0, false, 0) }

  lemma {:induction false} ExamineJoins(req: EvidenceRequest, s: Search, first: seq<RuntimeRecord>, rest: seq<RuntimeRecord>)
    ensures var halfway := ExamineAll(req, s, first);
            ExamineAll(req, s, first + rest) == if halfway.Err? then halfway else ExamineAll(req, halfway.value, rest)
  {
    if rest == [] {
      assert first + rest == first;
    } else {
      var whole := first + rest;
      assert whole[..|whole| - 1] == first + rest[..|rest| - 1];
      ExamineJoins(req, s, first, rest[..|rest| - 1]);
    }
  }

  function Concluded(s: Result<Search, I.InboxError>): Result<Evidence, I.InboxError> {
    if s.Err? then Err(s.error) else if s.value.found.None? then Err(I.NoEvidence) else Ok(s.value.found.value)
  }

  /** One page folded into the search, record by record. */
  method ExaminePage(req: EvidenceRequest, s: Search, records: seq<RuntimeRecord>) returns (r: Result<Search, I.InboxError>)
    ensures r == ExamineAll(req, s, records)
  {
    var found, fenceEpoch, fenceSeq := s.found, s.fenceEpoch, s.fenceSeq;
    for i := 0 to |records|
      invariant ExamineAll(req, s, records[..i]) == Ok(Search(found, fenceEpoch, fenceSeq))
    {
      assert records[..i + 1][..i] == records[..i];
      ExamineJoins(req, s, records[..i + 1], records[i + 1..]);
      assert records[..i + 1] + records[i + 1..] == records;
      var env := records[i].env;
      if env.IsFence() {
        fenceEpoch, fenceSeq := env.leaseEpoch, records[i].seqNo;
        continue;
      }
      if !env.IsDisposition() || env.attemptID != req.attempt.attemptID {
        continue;
      }
      if env.commandID != req.commandID || env.runtimeCommandID != req.runtime || env.commandKind != req.kind {
        return Err(I.NoEvidence);
      }
      if fenceEpoch == 0 || env.leaseEpoch != fenceEpoch || found.Some? {
        return Err(I.NoEvidence);
      }
      var authorFenceSeq := if env.dispositionKind == NotAppliedKind() then fenceSeq else 0;
      found := Some(Evidence(req.attempt.attemptID, env.dispositionKind, env.attemptJournalEpoch, fenceEpoch,
                             records[i].seqNo, authorFenceSeq, [], 0));
    }
    assert records[..|records|] == records;
    r := Ok(Search(found, fenceEpoch, fenceSeq));
  }

  function Follow(decode: Decoder, kind: Magic4, scope: Digest32, ask: ReadRequest, turns: seq<Turn>)
    : Result<Followed<RuntimeRecord>, Recovery.JournalError>
  {
    FollowCursors(kind, scope, RuntimeView(decode), ask, turns)
  }

  type Whole = Result<Followed<RuntimeRecord>, Recovery.JournalError>

  /** What is still to come, after the records already seen. */
  ghost predicate Remaining(all: Whole, seen: seq<RuntimeRecord>, rest: Whole) {
    if rest.Err? then all.Err? else all == Ok(Followed(seen + rest.value.items, rest.value.exhausted))
  }

  function AfterPage(decode: Decoder, kind: Magic4, scope: Digest32, page: RuntimePage, turns: seq<Turn>): Whole {
    if page.next.None? then Ok(Followed([], true)) else Follow(decode, kind, scope, NextPage(page.next.value), turns)
  }

  /** One turn, then the rest. */
  lemma FollowOne(decode: Decoder, kind: Magic4, scope: Digest32, ask: ReadRequest, turns: seq<Turn>)
    requires turns != []
    ensures var page := ReadRuntimeJournal(decode, kind, scope, ask, turns[0]);
            var all := Follow(decode, kind, scope, ask, turns);
            if page.Err? then all.Err?
            else Remaining(all, page.value.records, AfterPage(decode, kind, scope, page.value, turns[1..]))
  {
    var page := ReadRuntimeJournal(decode, kind, scope, ask, turns[0]);
    if page.Ok? { assert page.value.records + [] == page.value.records; }
  }

  lemma RemainingJoins(all: Whole, seen: seq<RuntimeRecord>, whole: Whole, records: seq<RuntimeRecord>, rest: Whole)
    requires Remaining(all, seen, whole) && Remaining(whole, records, rest)
    ensures Remaining(all, seen + records, rest)
  {
    if rest.Ok? { assert seen + (records + rest.value.items) == (seen + records) + rest.value.items; }
  }

  /** The whole search: pages until the cursor is empty. Each turn of the loop
      meets the journal as it then is. */
  method ReadDispositionEvidence(req: EvidenceRequest, decode: Decoder, kind: Magic4, scope: Digest32, turns: seq<Turn>)
    returns (r: Result<Evidence, I.InboxError>)
    ensures var all := Follow(decode, kind, scope, FIRST_PAGE, turns);
            && (all.Ok? && all.value.exhausted ==> r == Concluded(ExamineAll(req, NEW_SEARCH, all.value.items)))
            && (all.Ok? && !all.value.exhausted ==> r.Err?)
            && (all.Err? ==> r.Err?)
  {
    var search := NEW_SEARCH;
    var ask := FIRST_PAGE;
    ghost var seen: seq<RuntimeRecord> := [];
    ghost var all := Follow(decode, kind, scope, FIRST_PAGE, turns);
    assert turns[0..] == turns;
    assert all.Ok? ==> seen + all.value.items == all.value.items;
    for i := 0 to |turns|
      invariant ExamineAll(req, NEW_SEARCH, seen) == Ok(search)
      invariant Remaining(all, seen, Follow(decode, kind, scope, ask, turns[i..]))
    {
      assert turns[i..][1..] == turns[i + 1..];
      FollowOne(decode, kind, scope, ask, turns[i..]);
      var page := ReadRuntimeJournal(decode, kind, scope, ask, turns[i]);
      if page.Err? {
        return Err(I.Journal(page.error));
      }
      RemainingJoins(all, seen, Follow(decode, kind, scope, ask, turns[i..]), page.value.records,
                     AfterPage(decode, kind, scope, page.value, turns[i + 1..]));
      ExamineJoins(req, NEW_SEARCH, seen, page.value.records);
      var next := ExaminePage(req, search, page.value.records);
      seen := seen + page.value.records;
      if next.Err? {
        if all.Ok? {
          ghost var tail := all.value.items[|seen|..];
          assert all.value.items == seen + tail;
          ExamineJoins(req, NEW_SEARCH, seen, tail);
        }
        return Err(next.error);
      }
      search := next.value;
      if page.value.next.None? {
        return Concluded(Ok(search));
      }
      ask := NextPage(page.value.next.value);
    }
    assert turns[|turns|..] == [];
    r := Err(I.NoEvidence);
  }

  // ---- paging changes nothing --------------------------------------------------------

  /** The stored frames of this journal, as this decoder reads them. */
  ghost predicate Stores(frames: seq<seq<byte>>, decode: Decoder, journal: seq<Envelope>) {
    |frames| == |journal| && forall i :: 0 <= i < |frames| ==> decode(frames[i]) == Some(journal[i])
  }

  lemma {:induction false} EveryRecordSelected(frames: seq<seq<byte>>, decode: Decoder, journal: seq<Envelope>, from: nat)
    requires Stores(frames, decode, journal) && 1 <= from <= |frames| + 1
    ensures SelectedIn(frames, RuntimeView(decode), from, |frames|) == Numbered(journal)[from - 1..]
    decreases |frames| + 1 - from
  {
    if from <= |frames| {
      EveryRecordSelected(frames, decode, journal, from + 1);
      assert Numbered(journal)[from - 1..] == [RuntimeRecord(from, journal[from - 1])] + Numbered(journal)[from..];
    }
  }

  /** A paged search that meets a growing journal answers what an unpaged search of
      the first page's snapshot would, given turns enough to finish. */
  lemma PagedSearchIsTheSnapshotSearch(req: EvidenceRequest, decode: Decoder, kind: Magic4, scope: Digest32, turns: seq<Turn>,
                                       journal: seq<Envelope>)
    requires GoodTurns(turns) && turns != [] && |turns| > |journal| && Stores(turns[0].journal, decode, journal)
    ensures var all := Follow(decode, kind, scope, FIRST_PAGE, turns);
            all.Ok? && all.value.exhausted && Concluded(ExamineAll(req, NEW_SEARCH, all.value.items)) == EvidenceIn(req, journal)
  {
    var view := RuntimeView(decode);
    var frames := turns[0].journal;
    assert PlanOf(turns[0], kind, scope, FIRST_PAGE).Ok?;
    forall i | 0 <= i < |frames| ensures Readable(view(i + 1, frames[i])) {}
    var covered := FollowedIsTheSnapshot(kind, scope, view, FIRST_PAGE, turns);
    EveryRecordSelected(frames, decode, journal, 1);
    assert Numbered(journal)[0..] == Numbered(journal);
  }

  /** What a settlement learned through its pages is one disposition in the journal
      of its captured tip, and the only one to name the attempt. */
  lemma SettlementIsSound(req: EvidenceRequest, decode: Decoder, kind: Magic4, scope: Digest32, turns: seq<Turn>,
                          journal: seq<Envelope>, e: Evidence, residency: uint64, now: int)
    requires GoodTurns(turns) && turns != [] && |turns| > |journal| && Stores(turns[0].journal, decode, journal)
    requires var all := Follow(decode, kind, scope, FIRST_PAGE, turns);
             all.Ok? && Concluded(ExamineAll(req, NEW_SEARCH, all.value.items)) == Ok(e)
    requires VerifiedOutcome(req.attempt, e, residency, now).Ok?
    ensures exists p: nat ::
              && SoleAttestation(journal, req, p, |journal|) && e == EvidenceAt(journal, req, p)
              && journal[p].attemptJournalEpoch == req.attempt.journalEpoch
              && (if journal[p].dispositionKind == NotAppliedKind()
                  then J.NearestFence(journal, p) > req.attempt.journalEpoch
                  else J.NearestFence(journal, p) == req.attempt.journalEpoch)
  {
    PagedSearchIsTheSnapshotSearch(req, decode, kind, scope, turns, journal);
    EvidenceMeaning(journal, req, e);
    var p: nat :| SoleAttestation(journal, req, p, |journal|) && e == EvidenceAt(journal, req, p);
    assert SoleAttestation(journal, req, p, |journal|) && e == EvidenceAt(journal, req, p);
  }

  // ---- and what is attested is settled ---------------------------------------------------

  /** The one disposition of this attempt in the journal, by an author the attempt allows:
      the grant it was made under, or for a closure a later one. */
  ghost predicate Attested(journal: seq<Envelope>, req: EvidenceRequest, p: nat) {
    && SoleAttestation(journal, req, p, |journal|)
    && journal[p].attemptJournalEpoch == req.attempt.journalEpoch
    && (if journal[p].dispositionKind == Ascii("not_applied") then req.attempt.journalEpoch < J.NearestFence(journal, p)
        else && journal[p].dispositionKind in {Ascii("applied"), Ascii("no_op"), Ascii("refused")}
             && J.NearestFence(journal, p) == req.attempt.journalEpoch)
  }

  lemma {:induction false} TheFenceIsThere(journal: seq<Envelope>, n: nat)
    requires n <= |journal|
    ensures NearestFenceSeq(journal, n) <= n
    ensures J.NearestFence(journal, n) != 0 ==> NearestFenceSeq(journal, n) >= 1
  {
    if n > 0 { TheFenceIsThere(journal, n - 1); }
  }

  /** What the journal attests is about the attempt, and what is about the attempt is
      attested by the journal. */
  lemma AboutAttemptExactlyWhen(journal: seq<Envelope>, req: EvidenceRequest, p: nat)
    requires SoleAttestation(journal, req, p, |journal|)
    ensures AboutAttempt(req.attempt, EvidenceAt(journal, req, p)) <==> Attested(journal, req, p)
  {
    TheFenceIsThere(journal, p);
  }

  lemma EvidenceExactlyWhen(journal: seq<Envelope>, req: EvidenceRequest)
    ensures EvidenceIn(req, journal).Ok? && AboutAttempt(req.attempt, EvidenceIn(req, journal).value) <==>
              exists p: nat :: Attested(journal, req, p)
  {
    if EvidenceIn(req, journal).Ok? {
      var e := EvidenceIn(req, journal).value;
      EvidenceMeaning(journal, req, e);
      var p: nat :| SoleAttestation(journal, req, p, |journal|) && e == EvidenceAt(journal, req, p);
      AboutAttemptExactlyWhen(journal, req, p);
      forall q: nat | Attested(journal, req, q) ensures q == p { assert Attributed(journal[q], req); }
    }
    if p: nat :| Attested(journal, req, p) {
      EvidenceMeaning(journal, req, EvidenceAt(journal, req, p));
      AboutAttemptExactlyWhen(journal, req, p);
    }
  }

  /** What a settler brings back through its pages. */
  function Gathered(req: EvidenceRequest, decode: Decoder, kind: Magic4, scope: Digest32, turns: seq<Turn>)
    : Result<Evidence, I.InboxError>
  {
    var all := Follow(decode, kind, scope, FIRST_PAGE, turns);
    if all.Err? then Err(I.Journal(all.error)) else Concluded(ExamineAll(req, NEW_SEARCH, all.value.items))
  }

  /** An applying command whose attempt is asked about, by a residency not behind its own,
      at its current revision. */
  predicate ReadyToSettle(rows: Rows<Record>, command: Text, attempt: Attempt, revision: nat, residency: uint64) {
    && command in rows && !rows[command].deleted && rows[command].revision == revision >= 1 && residency >= 1
    && var r := rows[command].value;
    && r.state == I.Applying && r.attempt == Some(attempt) && r.claim.Some? && r.claim.value.residencyEpoch <= residency
  }

  predicate EndsAs(rows: Rows<Record>, command: Text, kind: Text) {
    command in rows && rows[command].value.state == if kind == Ascii("refused") || kind == Ascii("not_applied") then I.Rejected else I.Applied
  }

  /** So an applying command is settled exactly when its journal attests its attempt: once,
      and no other way, by the attempt's own grant or for a closure a later one. Refused and
      not applied settle it as rejected, applied and no-op as applied. */
  lemma SettlesExactlyWhen(validOpaque: Text -> bool, rows: Rows<Record>, lastOrder: nat, command: Text, req: EvidenceRequest,
                           revision: nat, residency: uint64, now: Instant, decode: Decoder, kind: Magic4, scope: Digest32,
                           turns: seq<Turn>, journal: seq<Envelope>)
    requires S.AllFiled(validOpaque, rows, lastOrder) && ReadyToSettle(rows, command, req.attempt, revision, residency) && Rankable(now)
    requires GoodTurns(turns) && turns != [] && |turns| > |journal| && Stores(turns[0].journal, decode, journal)
    ensures var settled := S.Transitioned(validOpaque, rows, command, Settle(revision, residency), now,
                                          Gathered(req, decode, kind, scope, turns));
            && (settled.0.Ok? <==> exists p: nat :: Attested(journal, req, p))
            && (settled.0.Err? ==> settled.1 == rows)
            && forall p: nat :: Attested(journal, req, p) ==> EndsAs(settled.1, command, journal[p].dispositionKind)
  {
    var evidence, settle := Gathered(req, decode, kind, scope, turns), Settle(revision, residency);
    PagedSearchIsTheSnapshotSearch(req, decode, kind, scope, turns, journal);
    EvidenceExactlyWhen(journal, req);
    S.WritesExactlyWhen(validOpaque, rows, lastOrder, command, settle, now, evidence);
    S.TransitionKeepsRows(validOpaque, rows, lastOrder, command, settle, now, evidence);
    forall p: nat | Attested(journal, req, p) ensures evidence == Ok(EvidenceAt(journal, req, p)) {
      EvidenceMeaning(journal, req, EvidenceAt(journal, req, p));
    }
  }
}
