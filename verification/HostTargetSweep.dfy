/** The sweep's own loop: pages of the due view at one fixed bound, each row decided
    on its own stored expiry, every row counted under exactly one outcome. A due
    cursor names the place after the last row handed back, so withdrawing rows behind
    it moves nothing ahead of it; `view` is the due view at the bound, in its order. */
module HostTargetSweep {
  import opened Wrappers
  import opened Bytes
  import opened Clock
  import opened Storage
  import opened HostTargets

  const DEFAULT_PAGES: nat := 16
  const MAX_PAGES: nat := 1024

  /** What the provider does with one withdrawal: answers it truthfully, commits it
      and answers with something else, or leaves the sweep without an answer. */
  datatype Reply = Truthful | Corrupt | Lost(landed: bool)

  datatype SweepError = InvalidSweep | ListFailed | RowFatal

  datatype Outcome = RowWithdrawn | RowStillLive | RowContended | RowUnreadable | RowUnverified

  datatype DueRow = DueRow(host: Text, row: TargetRow)

  /** The one thing a sweep may do to the directory: take down a row, as it stands,
      whose own stored expiry has passed. */
  predicate SweptRow(report: Report, host: Text, row: TargetRow, next: TargetRow, now: Instant) {
    next == row ||
    (Filed(report, host, row) && Lapsed(row.value.target, now) && Filed(report, host, next)
     && next.value.target == Withdrawal(row.value.target, now) && next.revision == row.revision + 1)
  }

  predicate SweptOnly(report: Report, rows: Rows<Value>, next: Rows<Value>, now: Instant) {
    rows.Keys == next.Keys && forall k :: k in rows ==> SweptRow(report, k, rows[k], next[k], now)
  }

  lemma SweptOnlyJoins(report: Report, rows: Rows<Value>, mid: Rows<Value>, next: Rows<Value>, now: Instant)
    requires SweptOnly(report, rows, mid, now) && SweptOnly(report, mid, next, now)
    ensures SweptOnly(report, rows, next, now)
  {
    forall k | k in rows ensures SweptRow(report, k, rows[k], next[k], now) {
      assert SweptRow(report, k, mid[k], next[k], now);
    }
  }

  function Hosts(view: seq<DueRow>): seq<Text> { seq(|view|, i requires 0 <= i < |view| => view[i].host) }

  class SweepResult {
    var scanned: nat
    var withdrawn: nat
    var stillLive: nat
    var contended: nat
    var unreadable: nat
    var unverified: nat
    var exhausted: bool
    var nextCursor: Option<nat>

    constructor ()
      ensures scanned == 0 && Accounted() == 0 && !exhausted && nextCursor == None
    {
      scanned, withdrawn, stillLive, contended, unreadable, unverified := 0, 0, 0, 0, 0, 0;
      exhausted, nextCursor := false, None;
    }

    function Accounted(): nat
      reads this
    {
      withdrawn + stillLive + contended + unreadable + unverified
    }

    /** A sweep that stopped between rows: everything it visited is accounted for,
        and it says where the rest of the view begins. */
    ghost predicate Stopped(view: seq<DueRow>, after: nat, visited: seq<Text>, failed: bool)
      reads this
    {
      && scanned == Accounted() && after + scanned <= |view| && visited == Hosts(view[after..after + scanned])
      && (!failed ==>
            && (exhausted <==> after + scanned == |view|)
            && (!exhausted ==> scanned > 0)
            && nextCursor == if exhausted then None else Some(after + scanned))
      && (failed ==> !exhausted && (nextCursor == if after + scanned == 0 then None else Some(after + scanned)))
    }

    method Count(outcome: Outcome)
      modifies this
      ensures Accounted() == old(Accounted()) + 1
      ensures scanned == old(scanned) && exhausted == old(exhausted) && nextCursor == old(nextCursor)
    {
      match outcome
      case RowWithdrawn => withdrawn := withdrawn + 1;
      case RowStillLive => stillLive := stillLive + 1;
      case RowContended => contended := contended + 1;
      case RowUnreadable => unreadable := unreadable + 1;
      case RowUnverified => unverified := unverified + 1;
    }
  }

  /** A page may be stale, but never lies about a revision. */
  ghost predicate PageHonest(rows: Rows<Value>, due: DueRow) {
    due.host in rows ==>
      && due.row.revision <= rows[due.host].revision
      && (rows[due.host].revision == due.row.revision && !rows[due.host].deleted ==> rows[due.host] == due.row)
  }

  /** A readable row that has expired by this reading, and whose withdrawal can be held. */
  predicate Expired(report: Report, due: DueRow, now: Instant) {
    Stands(report, due.host, Some(due.row)) && ExpiredBy(due.row.value.target, now) && Rankable(now)
  }

  /** And which is still the row its page showed. */
  predicate Ready(report: Report, rows: Rows<Value>, due: DueRow, now: Instant) {
    Expired(report, due, now) && due.host in rows && rows[due.host] == due.row
  }

  predicate TakenDown(rows: Rows<Value>, host: Text) {
    host in rows && rows[host].value.Readable? && rows[host].value.target.advertisement.None?
  }

  /** One host to a row, and a provider that answers truthfully. */
  ghost predicate Smooth(view: seq<DueRow>, replies: seq<Reply>) {
    && (forall i, j :: 0 <= i < j < |view| ==> view[i].host != view[j].host)
    && (forall i :: 0 <= i < |replies| ==> replies[i].Truthful?)
  }

  predicate SameRow(rows: Rows<Value>, next: Rows<Value>, host: Text) {
    (host in rows <==> host in next) && (host in rows ==> next[host] == rows[host])
  }

  /** Between these two places every expired row is taken down, and elsewhere in the view
      none is touched. */
  ghost predicate Cleared(report: Report, rows: Rows<Value>, next: Rows<Value>, view: seq<DueRow>, from: nat, upTo: nat, now: Instant)
    requires from <= upTo <= |view|
  {
    && (forall j :: from <= j < upTo && Ready(report, rows, view[j], now) ==> TakenDown(next, view[j].host))
    && (forall j :: 0 <= j < |view| && !(from <= j < upTo) ==> SameRow(rows, next, view[j].host))
  }

  lemma ClearedJoins(report: Report, rows: Rows<Value>, mid: Rows<Value>, next: Rows<Value>, view: seq<DueRow>,
                     a: nat, b: nat, c: nat, now: Instant)
    requires a <= b <= c <= |view| && Cleared(report, rows, mid, view, a, b, now) && Cleared(report, mid, next, view, b, c, now)
    ensures Cleared(report, rows, next, view, a, c, now)
  {
    forall j | a <= j < c && Ready(report, rows, view[j], now) ensures TakenDown(next, view[j].host) {
      if j < b {
        assert TakenDown(mid, view[j].host) && SameRow(mid, next, view[j].host);
      } else {
        assert SameRow(rows, mid, view[j].host) && Ready(report, mid, view[j], now);
      }
    }
    forall j | 0 <= j < |view| && !(a <= j < c) ensures SameRow(rows, next, view[j].host) {
      assert SameRow(rows, mid, view[j].host) && SameRow(mid, next, view[j].host);
    }
  }

  /** One row: None when the sweep cannot go on. */
  method ReconcileHostTargetRow(report: Report, index: OrderedIndex<Value>, due: DueRow, now: Instant, reply: Reply)
    returns (outcome: Option<Outcome>)
    requires PageHonest(index.rows, due)
    modifies index
    ensures SweptOnly(report, old(index.rows), index.rows, now)
    ensures forall k :: k in index.rows && k != due.host ==> index.rows[k] == old(index.rows)[k]
    ensures outcome == Some(RowStillLive) <==> Stands(report, due.host, Some(due.row)) && !ExpiredBy(due.row.value.target, now)
    ensures outcome == Some(RowUnreadable) <==>
              !Stands(report, due.host, Some(due.row)) || (ExpiredBy(due.row.value.target, now) && !Rankable(now))
    ensures outcome == Some(RowContended) <==>
              Expired(report, due, now) && !reply.Lost? && !(due.host in old(index.rows) && old(index.rows)[due.host] == due.row)
    ensures outcome == Some(RowWithdrawn) <==> Ready(report, old(index.rows), due, now) && reply.Truthful?
    ensures outcome == Some(RowUnverified) <==> Ready(report, old(index.rows), due, now) && reply.Corrupt?
    ensures outcome == None <==> Expired(report, due, now) && reply.Lost?
    ensures Ready(report, old(index.rows), due, now) && reply.Truthful? ==> TakenDown(index.rows, due.host)
    ensures outcome == Some(RowWithdrawn) || outcome == Some(RowUnverified) ==>
              due.host in index.rows && index.rows[due.host].value == Readable(Withdrawal(due.row.value.target, now))
    ensures outcome == Some(RowWithdrawn) || outcome == Some(RowUnverified) ==> index.rows != old(index.rows)
    ensures outcome == Some(RowContended) || outcome == Some(RowStillLive) || outcome == Some(RowUnreadable) ==>
              index.rows == old(index.rows)
  {
    if !Filed(report, due.host, due.row) {
      return Some(RowUnreadable);
    }
    var target := due.row.value.target;
    if !Lapsed(target, now) {
      return Some(RowStillLive);
    }
    var withdrawal := Withdrawal(target, now);
    if !ValidTarget(report, withdrawal) {
      return Some(RowUnreadable);
    }
    if reply.Lost? {
      if reply.landed {
        var landed := index.Update(due.host, due.row.revision, Readable(withdrawal), TargetRank(withdrawal), TargetDue(withdrawal));
      }
      return None;
    }
    var stored := index.Update(due.host, due.row.revision, Readable(withdrawal), TargetRank(withdrawal), TargetDue(withdrawal));
    if stored.Err? {
      return Some(RowContended);
    }
    outcome := Some(if reply.Corrupt? then RowUnverified else RowWithdrawn);
  }

  lemma RowClears(report: Report, rows: Rows<Value>, mid: Rows<Value>, next: Rows<Value>, view: seq<DueRow>, replies: seq<Reply>,
                  from: nat, i: nat, now: Instant)
    requires from <= i < |view| && Smooth(view, replies) && Cleared(report, rows, mid, view, from, i, now)
    requires mid.Keys == next.Keys && (forall k :: k in next && k != view[i].host ==> next[k] == mid[k])
    requires Ready(report, mid, view[i], now) ==> TakenDown(next, view[i].host)
    ensures Cleared(report, rows, next, view, from, i + 1, now)
  {
    forall j | 0 <= j < |view| && j != i ensures SameRow(mid, next, view[j].host) {}
    ClearedJoins(report, rows, mid, next, view, from, i, i + 1, now);
  }

  ghost predicate ViewHonest(rows: Rows<Value>, view: seq<DueRow>) {
    forall i :: 0 <= i < |view| ==> PageHonest(rows, view[i])
  }

  lemma ViewStaysHonest(report: Report, rows: Rows<Value>, next: Rows<Value>, now: Instant, view: seq<DueRow>)
    requires ViewHonest(rows, view) && SweptOnly(report, rows, next, now)
    ensures ViewHonest(next, view)
  {
    forall i | 0 <= i < |view| ensures PageHonest(next, view[i]) {
      if view[i].host in rows {
        assert PageHonest(rows, view[i]) && SweptRow(report, view[i].host, rows[view[i].host], next[view[i].host], now);
      }
    }
  }

  predicate AnyLost(replies: seq<Reply>) { exists i :: 0 <= i < |replies| && replies[i].Lost? }

  /** Everything between two places of the view, one row at a time. */
  method SweepRows(report: Report, index: OrderedIndex<Value>, view: seq<DueRow>, from: nat, upTo: nat, now: Instant,
                   replies: seq<Reply>, result: SweepResult)
    returns (fatal: bool, ghost visited: seq<Text>)
    requires from <= upTo <= |view| && |replies| == |view| && ViewHonest(index.rows, view)
    modifies index, result
    ensures SweptOnly(report, old(index.rows), index.rows, now)
    ensures result.exhausted == old(result.exhausted) && result.nextCursor == old(result.nextCursor)
    ensures !fatal ==>
              && visited == Hosts(view[from..upTo])
              && result.scanned == old(result.scanned) + upTo - from
              && result.Accounted() == old(result.Accounted()) + upTo - from
    ensures fatal ==> AnyLost(replies)
    ensures fatal ==> result.scanned - result.Accounted() == old(result.scanned) - old(result.Accounted()) + 1
    ensures Smooth(view, replies) ==> Cleared(report, old(index.rows), index.rows, view, from, upTo, now)
  {
    fatal, visited := false, [];
    for i := from to upTo
      invariant SweptOnly(report, old(index.rows), index.rows, now) && ViewHonest(index.rows, view)
      invariant visited == Hosts(view[from..i])
      invariant result.scanned == old(result.scanned) + i - from
      invariant result.Accounted() == old(result.Accounted()) + i - from
      invariant result.exhausted == old(result.exhausted) && result.nextCursor == old(result.nextCursor)
      invariant Smooth(view, replies) ==> Cleared(report, old(index.rows), index.rows, view, from, i, now)
    {
      ghost var before := index.rows;
      assert PageHonest(before, view[i]);
      result.scanned := result.scanned + 1;
      visited := visited + [view[i].host];
      assert view[from..i + 1] == view[from..i] + [view[i]];
      var outcome := ReconcileHostTargetRow(report, index, view[i], now, replies[i]);
      SweptOnlyJoins(report, old(index.rows), before, index.rows, now);
      ViewStaysHonest(report, before, index.rows, now, view);
      if Smooth(view, replies) { RowClears(report, old(index.rows), before, index.rows, view, replies, from, i, now); }
      if outcome.None? {
        return true, visited;
      }
      result.Count(outcome.value);
    }
  }

  /** One call: up to `pages` pages of `limit` rows from a place in the view. Every
      row scanned is under exactly one of the five outcomes, save the one row that
      ended the sweep; and a sweep that stops for want of pages, or of the provider,
      says where. `failsAt` is the page whose listing fails, if one does. */
  method ReconcileHostTargets(report: Report, index: OrderedIndex<Value>, view: seq<DueRow>, after: nat, limit: nat, maxPages: int,
                              now: Instant, replies: seq<Reply>, failsAt: Option<nat>)
    returns (result: SweepResult, err: Option<SweepError>, ghost visited: seq<Text>)
    requires after <= |view| && limit > 0 && |replies| == |view| && ViewHonest(index.rows, view)
    modifies index
    ensures fresh(result) && SweptOnly(report, old(index.rows), index.rows, now)
    ensures err == Some(ListFailed) ==> failsAt.Some?
    ensures err == Some(RowFatal) ==> AnyLost(replies)
    ensures err == Some(InvalidSweep) <==> maxPages < 0 || maxPages > 1024
    ensures err.None? ==> result.scanned == AtMost(|view| - after, RowsHeld(if maxPages == 0 then 16 else maxPages, limit))
    ensures err == Some(InvalidSweep) ==> result.scanned == 0 && index.rows == old(index.rows)
    ensures err == Some(RowFatal) ==> result.scanned == result.Accounted() + 1
    ensures err == Some(ListFailed) || err.None? ==> result.Stopped(view, after, visited, err.Some?)
    ensures err.None? ==> PagedThrough(report, old(index.rows), index.rows, view, after, after + result.scanned, now, Smooth(view, replies))
  {
    result := new SweepResult();
    err, visited := None, [];
    assert Hosts(view[after..after]) == [];
    if maxPages < 0 || maxPages > MAX_PAGES {
      err := Some(InvalidSweep);
      return;
    }
    err, visited := SweepPages(report, index, view, after, limit, if maxPages == 0 then DEFAULT_PAGES else maxPages, now, replies,
                               failsAt, result);
  }

  lemma HostsJoin(view: seq<DueRow>, a: nat, b: nat, c: nat)
    requires a <= b <= c <= |view|
    ensures Hosts(view[a..b]) + Hosts(view[b..c]) == Hosts(view[a..c])
  {
  }

  /** Everything one call's pages so far have come to, between two places of the view. */
  ghost predicate PagedThrough(report: Report, rows: Rows<Value>, next: Rows<Value>, view: seq<DueRow>, after: nat, at: nat,
                               now: Instant, smooth: bool)
    requires after <= at <= |view|
  {
    SweptOnly(report, rows, next, now) && ViewHonest(next, view) && (smooth ==> Cleared(report, rows, next, view, after, at, now))
  }

  lemma NextPage(report: Report, rows: Rows<Value>, mid: Rows<Value>, next: Rows<Value>, view: seq<DueRow>, after: nat, at: nat, end: nat,
                 now: Instant, smooth: bool)
    requires after <= at <= end <= |view| && PagedThrough(report, rows, mid, view, after, at, now, smooth)
    requires SweptOnly(report, mid, next, now) && (smooth ==> Cleared(report, mid, next, view, at, end, now))
    ensures PagedThrough(report, rows, next, view, after, end, now, smooth)
  {
    SweptOnlyJoins(report, rows, mid, next, now);
    ViewStaysHonest(report, mid, next, now, view);
    if smooth { ClearedJoins(report, rows, mid, next, view, after, at, end, now); }
  }

  function AtMost(a: int, b: int): int { if a < b then a else b }

  /** How many rows so many pages hold. */
  function RowsHeld(pages: nat, limit: nat): nat { if pages == 0 then 0 else RowsHeld(pages - 1, limit) + limit }

  lemma {:induction false} RowsGrow(p: nat, pages: nat, limit: nat)
    requires p <= pages
    ensures RowsHeld(p, limit) <= RowsHeld(pages, limit)
  {
    if p < pages { RowsGrow(p, pages - 1, limit); }
  }

  /** One page: the rows from here to the limit or the end of the view. */
  method SweepPage(report: Report, index: OrderedIndex<Value>, view: seq<DueRow>, after: nat, at: nat, limit: nat, now: Instant,
                   replies: seq<Reply>, result: SweepResult, ghost rows: Rows<Value>)
    returns (fatal: bool, end: nat, ghost visited: seq<Text>)
    requires after <= at <= |view| && limit > 0 && |replies| == |view|
    requires PagedThrough(report, rows, index.rows, view, after, at, now, Smooth(view, replies))
    modifies index, result
    ensures end == AtMost(at + limit, |view|) && PagedThrough(report, rows, index.rows, view, after, end, now, Smooth(view, replies))
    ensures result.exhausted == old(result.exhausted) && result.nextCursor == old(result.nextCursor)
    ensures if fatal then AnyLost(replies) && result.scanned - result.Accounted() == old(result.scanned) - old(result.Accounted()) + 1
            else && result.scanned == old(result.scanned) + end - at && result.Accounted() == old(result.Accounted()) + end - at
                 && visited == Hosts(view[after..end])
  {
    ghost var before := index.rows;
    end := if at + limit < |view| then at + limit else |view|;
    fatal, visited := SweepRows(report, index, view, at, end, now, replies, result);
    NextPage(report, rows, before, index.rows, view, after, at, end, now, Smooth(view, replies));
    HostsJoin(view, after, at, end);
    visited := Hosts(view[after..at]) + visited;
  }

  /** The page loop of one call. */
  method SweepPages(report: Report, index: OrderedIndex<Value>, view: seq<DueRow>, after: nat, limit: nat, pages: nat, now: Instant,
                    replies: seq<Reply>, failsAt: Option<nat>, result: SweepResult)
    returns (err: Option<SweepError>, ghost visited: seq<Text>)
    requires after <= |view| && limit > 0 && pages > 0 && |replies| == |view| && ViewHonest(index.rows, view)
    requires result.scanned == 0 && result.Accounted() == 0 && !result.exhausted && result.nextCursor == None
    modifies index, result
    ensures SweptOnly(report, old(index.rows), index.rows, now)
    ensures err == Some(ListFailed) ==> failsAt.Some?
    ensures err == Some(RowFatal) ==> AnyLost(replies)
    ensures err != Some(InvalidSweep)
    ensures err.None? ==> result.scanned == AtMost(|view| - after, RowsHeld(pages, limit))
    ensures if err == Some(RowFatal) then result.scanned == result.Accounted() + 1
            else result.Stopped(view, after, visited, err.Some?)
    ensures err.None? ==> PagedThrough(report, old(index.rows), index.rows, view, after, after + result.scanned, now, Smooth(view, replies))
  {
    var at := after;
    visited := [];
    assert Hosts(view[after..after]) == [];
    for p := 0 to pages
      invariant after <= at <= |view| && !result.exhausted && result.nextCursor == None
      invariant result.scanned == result.Accounted() == at - after && visited == Hosts(view[after..at])
      invariant PagedThrough(report, old(index.rows), index.rows, view, after, at, now, Smooth(view, replies))
      invariant p > 0 ==> after < at < |view|
      invariant at == after + RowsHeld(p, limit)
    {
      if failsAt == Some(p) {
        if at != 0 {
          result.nextCursor := Some(at);
        }
        return Some(ListFailed), visited;
      }
      var fatal: bool;
      fatal, at, visited := SweepPage(report, index, view, after, at, limit, now, replies, result, old(index.rows));
      if fatal {
        return Some(RowFatal), visited;
      }
      RowsGrow(p + 1, pages, limit);
      if at == |view| {
        result.exhausted := true;
        return None, visited;
      }
    }
    result.nextCursor := Some(at);
    err := None;
  }

  /** A row the resumed calls left alone, or took down at one of their readings. */
  predicate SweptAtOne(report: Report, host: Text, row: TargetRow, next: TargetRow, readings: seq<Instant>) {
    exists i :: 0 <= i < |readings| && SweptRow(report, host, row, next, readings[i])
  }

  predicate SweptAtReadings(report: Report, rows: Rows<Value>, next: Rows<Value>, readings: seq<Instant>) {
    rows.Keys == next.Keys && forall k :: k in rows ==> SweptAtOne(report, k, rows[k], next[k], readings)
  }

  /** A withdrawn row never lapses, so no later call takes it down again. */
  lemma NextCallJoins(report: Report, rows: Rows<Value>, mid: Rows<Value>, next: Rows<Value>, readings: seq<Instant>, c: nat)
    requires c < |readings| && SweptAtReadings(report, rows, mid, readings) && SweptOnly(report, mid, next, readings[c])
    ensures SweptAtReadings(report, rows, next, readings)
  {
    forall k | k in rows ensures SweptAtOne(report, k, rows[k], next[k], readings) {
      assert SweptRow(report, k, mid[k], next[k], readings[c]);
      assert SweptAtOne(report, k, rows[k], mid[k], readings);
      if mid[k] == rows[k] {
        assert SweptRow(report, k, rows[k], next[k], readings[c]);
      }
    }
  }

  predicate ReadyThroughout(report: Report, rows: Rows<Value>, due: DueRow, readings: seq<Instant>) {
    forall i :: 0 <= i < |readings| ==> Ready(report, rows, due, readings[i])
  }

  ghost predicate ClearedThrough(report: Report, rows: Rows<Value>, next: Rows<Value>, view: seq<DueRow>, at: nat, readings: seq<Instant>)
    requires at <= |view|
  {
    && (forall j :: 0 <= j < at && ReadyThroughout(report, rows, view[j], readings) ==> TakenDown(next, view[j].host))
    && (forall j :: at <= j < |view| ==> SameRow(rows, next, view[j].host))
  }

  lemma NextCallClears(report: Report, rows: Rows<Value>, mid: Rows<Value>, next: Rows<Value>, view: seq<DueRow>, at: nat, upTo: nat,
                       readings: seq<Instant>, call: nat)
    requires at <= upTo <= |view| && call < |readings|
    requires ClearedThrough(report, rows, mid, view, at, readings) && Cleared(report, mid, next, view, at, upTo, readings[call])
    ensures ClearedThrough(report, rows, next, view, upTo, readings)
  {
    forall j | 0 <= j < upTo && ReadyThroughout(report, rows, view[j], readings) ensures TakenDown(next, view[j].host) {
      assert Ready(report, rows, view[j], readings[call]);
      if j < at {
        assert TakenDown(mid, view[j].host) && SameRow(mid, next, view[j].host);
      } else {
        assert SameRow(rows, mid, view[j].host) && Ready(report, mid, view[j], readings[call]);
      }
    }
    forall j | upTo <= j < |view| ensures SameRow(rows, next, view[j].host) {
      assert SameRow(rows, mid, view[j].host) && SameRow(mid, next, view[j].host);
    }
  }

  /** Everything the calls so far have come to, at place `at` of the view. */
  ghost predicate CalledThrough(report: Report, rows: Rows<Value>, next: Rows<Value>, view: seq<DueRow>, at: nat, readings: seq<Instant>,
                                smooth: bool)
    requires at <= |view|
  {
    && SweptAtReadings(report, rows, next, readings) && ViewHonest(next, view)
    && (smooth ==> ClearedThrough(report, rows, next, view, at, readings))
  }

  lemma NoCallYet(report: Report, rows: Rows<Value>, view: seq<DueRow>, readings: seq<Instant>)
    requires ViewHonest(rows, view) && readings != []
    ensures CalledThrough(report, rows, rows, view, 0, readings, true) && CalledThrough(report, rows, rows, view, 0, readings, false)
  {
    forall k | k in rows ensures SweptAtOne(report, k, rows[k], rows[k], readings) {
      assert SweptRow(report, k, rows[k], rows[k], readings[0]);
    }
  }

  lemma NextCall(report: Report, rows: Rows<Value>, mid: Rows<Value>, next: Rows<Value>, view: seq<DueRow>, at: nat, upTo: nat,
                 readings: seq<Instant>, call: nat, smooth: bool)
    requires at <= upTo <= |view| && call < |readings| && CalledThrough(report, rows, mid, view, at, readings, smooth)
    requires SweptOnly(report, mid, next, readings[call])
    requires smooth ==> Cleared(report, mid, next, view, at, upTo, readings[call])
    ensures CalledThrough(report, rows, next, view, upTo, readings, smooth)
  {
    NextCallJoins(report, rows, mid, next, readings, call);
    ViewStaysHonest(report, mid, next, readings[call], view);
    if smooth { NextCallClears(report, rows, mid, next, view, at, upTo, readings, call); }
  }

  /** Handing the cursor back until it says exhausted visits every row due at the
      bound, once each and in order, however many of them are unreadable. Each resumed
      call reads the clock again, and a row it takes down lapsed at that reading; with a
      truthful provider every row still standing that expired by then is taken down. */
  method SweepUntilExhausted(report: Report, index: OrderedIndex<Value>, view: seq<DueRow>, limit: nat, maxPages: int,
                             readings: seq<Instant>, replies: seq<Reply>)
    returns (err: Option<SweepError>, ghost visited: seq<Text>)
    requires limit > 0 && 0 <= maxPages <= MAX_PAGES && |replies| == |view| < |readings| && ViewHonest(index.rows, view)
    modifies index
    ensures SweptAtReadings(report, old(index.rows), index.rows, readings)
    ensures err.None? ==> visited == Hosts(view)
    ensures (forall i :: 0 <= i < |replies| ==> !replies[i].Lost?) ==> err.None?
    ensures Smooth(view, replies) ==> ClearedThrough(report, old(index.rows), index.rows, view, |view|, readings)
  {
    var at, call := 0, 0;
    err, visited := None, [];
    assert Hosts(view[0..0]) == [];
    ghost var smooth := Smooth(view, replies);
    NoCallYet(report, index.rows, view, readings);
    while true
      invariant call <= at <= |view| && visited == Hosts(view[0..at])
      invariant CalledThrough(report, old(index.rows), index.rows, view, at, readings, smooth)
      decreases |view| - at
    {
      ghost var before := index.rows;
      var result: SweepResult;
      ghost var page: seq<Text>;
      result, err, page := ReconcileHostTargets(report, index, view, at, limit, maxPages, readings[call], replies, None);
      if err.Some? {
        NextCallJoins(report, old(index.rows), before, index.rows, readings, call);
        assert err.value.InvalidSweep? || err.value.ListFailed? || err.value.RowFatal?;
        return;
      }
      NextCall(report, old(index.rows), before, index.rows, view, at, at + result.scanned, readings, call, smooth);
      HostsJoin(view, 0, at, at + result.scanned);
      visited := visited + page;
      at, call := at + result.scanned, call + 1;
      if result.exhausted {
        assert view[0..|view|] == view;
        return;
      }
    }
  }
}
