/** Bounded pages of one session's journal. A walk stops at the event limit, the
    byte budget, the scan limit or the captured tip, and a cursor resumes it inside
    the same snapshot however far the live journal has grown since. */
module JournalReader {
  import opened Wrappers
  import opened Bytes
  import opened Cursors
  import opened Recovery

  // ---- one page -------------------------------------------------------------------

  /** What one record is to a page: damage, withheld, or an item and its cost. */
  datatype Look<T> = Undecodable | Withheld | Unbuildable(error: JournalError) | Selected(item: T, cost: nat)

  /** The reader's view of a record: decoding, selection and building, as one. */
  type View<!T> = (nat, seq<byte>) -> Look<T>

  /** Where one walk starts and what bounds it. `scanLimit` zero is unbounded. */
  datatype Bounds = Bounds(from: nat, capturedTip: nat, limit: nat, maxBytes: nat, scanLimit: nat)

  datatype Page<T> = Page(items: seq<T>, used: nat, covered: nat, truncated: bool, nextSeq: nat)

  /** A walk that has examined everything through `covered`. */
  function Walk<T>(b: Bounds, journal: seq<seq<byte>>, view: View<T>, items: seq<T>, used: nat, covered: nat)
    : Result<Page<T>, JournalError>
    requires b.from >= 1 && b.from - 1 <= covered < b.capturedTip <= |journal|
    decreases b.capturedTip - covered
  {
    if b.scanLimit > 0 && covered + 1 - b.from >= b.scanLimit then Ok(Page(items, used, covered, true, covered + 1))
    else
      var seqNo := covered + 1;
      var look := view(seqNo, journal[covered]);
      if look.Undecodable? then Err(Integrity)
      else if !look.Withheld? && |items| >= b.limit then Ok(Page(items, used, covered, true, seqNo))
      else if look.Unbuildable? then Err(look.error)
      else if look.Selected? && |items| > 0 && used + look.cost > b.maxBytes then Ok(Page(items, used, covered, true, seqNo))
      else
        var next := if look.Selected? then items + [look.item] else items;
        var spent := if look.Selected? then used + look.cost else used;
        if seqNo == b.capturedTip then Ok(Page(next, spent, seqNo, false, 0)) else Walk(b, journal, view, next, spent, seqNo)
  }

  function EmptyPage<T>(covered: nat): Page<T> { Page([], 0, covered, false, 0) }

  /** One page of a conforming journal. */
  function ReadPage<T>(b: Bounds, journal: seq<seq<byte>>, view: View<T>): Result<Page<T>, JournalError>
    requires b.from >= 1 && b.capturedTip <= |journal|
  {
    if b.from > b.capturedTip then Ok(EmptyPage(b.capturedTip)) else Walk(b, journal, view, [], 0, b.from - 1)
  }

  /** The provider's cursor from `from`: dense sequences, at least through the tip. */
  ghost predicate Serves(stream: seq<Stored>, b: Bounds, journal: seq<seq<byte>>)
    requires b.from >= 1
  {
    && b.capturedTip <= |journal| && b.capturedTip + 1 <= b.from + |stream|
    && forall i {:trigger stream[i]} :: 0 <= i < |stream| && b.from + i <= b.capturedTip ==>
         stream[i] == Stored(b.from + i, journal[b.from + i - 1])
  }

  class JournalScan<!T> {
    const bounds: Bounds
    var covered: nat
    var truncated: bool
    var nextSeq: nat

    constructor (b: Bounds)
      requires b.from >= 1
      ensures bounds == b && covered == Min(b.from - 1, b.capturedTip) && !truncated && nextSeq == 0
    {
      bounds, covered, truncated, nextSeq := b, Min(b.from - 1, b.capturedTip), false, 0;
    }

    method Truncate(seqNo: nat)
      modifies this`truncated, this`nextSeq
      ensures truncated && nextSeq == seqNo
    {
      truncated, nextSeq := true, seqNo;
    }

    function PageOf(items: seq<T>, used: nat): Page<T> reads this { Page(items, used, covered, truncated, nextSeq) }

    /** What is left of the page is the walk from here, `k` records on. */
    ghost predicate WalkedTo(journal: seq<seq<byte>>, view: View<T>, page: seq<T>, used: nat, k: nat)
      requires bounds.from >= 1
      reads this
    {
      && covered == bounds.from - 1 + k < bounds.capturedTip <= |journal|
      && ReadPage(bounds, journal, view) == Walk(bounds, journal, view, page, used, covered)
    }

    /** Over any stream at all a page that is returned either reached the captured
        tip or says where it stopped; over a conforming one it is `ReadPage`. */
    method WalkJournal(stream: seq<Stored>, view: View<T>) returns (r: Result<seq<T>, JournalError>, used: nat)
      requires bounds.from >= 1 && covered == Min(bounds.from - 1, bounds.capturedTip) && !truncated && nextSeq == 0
      modifies this
      ensures r.Ok? && !truncated ==> covered >= bounds.capturedTip
      ensures r.Ok? && |r.value| >= 2 ==> used <= bounds.maxBytes
      ensures forall journal :: Serves(stream, bounds, journal) ==>
                match ReadPage(bounds, journal, view)
                case Ok(page) => r.Ok? && PageOf(r.value, used) == page
                case Err(e) => r == Err(e)
    {
      used := 0;
      if bounds.from > bounds.capturedTip {
        return Ok([]), 0;
      }
      var page: seq<T> := [];
      var examined, k := 0, 0;
      ghost var done := false;
      while true
        invariant 0 <= k <= |stream| && examined == k && !truncated && nextSeq == 0
        invariant |page| >= 2 ==> used <= bounds.maxBytes
        invariant forall journal :: Serves(stream, bounds, journal) ==> WalkedTo(journal, view, page, used, k)
        decreases |stream| - k
      {
        if bounds.scanLimit > 0 && examined >= bounds.scanLimit {
          Truncate(covered + 1);
          break;
        }
        if k == |stream| || stream[k].seqNo > bounds.capturedTip {
          break;
        }
        var record := stream[k];
        examined, k := examined + 1, k + 1;
        var look := view(record.seqNo, record.payload);
        if look.Undecodable? {
          return Err(Integrity), used;
        }
        if !look.Withheld? {
          if |page| >= bounds.limit {
            Truncate(record.seqNo);
            break;
          }
          if look.Unbuildable? {
            return Err(look.error), used;
          }
          if |page| > 0 && used + look.cost > bounds.maxBytes {
            Truncate(record.seqNo);
            break;
          }
          page := page + [look.item];
          used := used + look.cost;
        }
        covered := record.seqNo;
        if record.seqNo == bounds.capturedTip {
          break;
        }
      }
      if covered < bounds.capturedTip && !truncated {
        return Err(Integrity), used;
      }
      r := Ok(page);
    }
  }

  function Min(a: nat, b: nat): nat { if a < b then a else b }

  // ---- what a page is ---------------------------------------------------------------

  /** The items of every selected record with a sequence in `from..upTo`. */
  function SelectedIn<T>(journal: seq<seq<byte>>, view: View<T>, from: nat, upTo: nat): seq<T>
    requires 1 <= from && upTo <= |journal|
    decreases upTo + 1 - from
  {
    if from > upTo then []
    else
      var look := view(from, journal[from - 1]);
      (if look.Selected? then [look.item] else []) + SelectedIn(journal, view, from + 1, upTo)
  }

  lemma {:induction false} SelectedJoins<T>(journal: seq<seq<byte>>, view: View<T>, from: nat, mid: nat, upTo: nat)
    requires 1 <= from <= mid + 1 && mid <= upTo <= |journal|
    ensures SelectedIn(journal, view, from, upTo) == SelectedIn(journal, view, from, mid) + SelectedIn(journal, view, mid + 1, upTo)
    decreases mid + 1 - from
  {
    if from <= mid {
      SelectedJoins(journal, view, from + 1, mid, upTo);
      var look := view(from, journal[from - 1]);
      var first := if look.Selected? then [look.item] else [];
      assert SelectedIn(journal, view, from, mid) == first + SelectedIn(journal, view, from + 1, mid);
    } else {
      assert SelectedIn(journal, view, from, mid) == [];
    }
  }

  /** Why a page may stop short: enough examined, or one more item than fits. */
  ghost predicate StopsHere<T>(b: Bounds, journal: seq<seq<byte>>, view: View<T>, page: Page<T>)
    requires b.from - 1 <= page.covered < |journal|
  {
    || (b.scanLimit > 0 && page.covered + 1 - b.from == b.scanLimit)
    || (var look := view(page.covered + 1, journal[page.covered]);
        && (look.Selected? || look.Unbuildable?)
        && (|page.items| == b.limit || (|page.items| > 0 && look.Selected? && page.used + look.cost > b.maxBytes)))
  }

  /** Nothing in this stretch is passed over because it could not be read. */
  ghost predicate Undamaged<T>(journal: seq<seq<byte>>, view: View<T>, from: nat, upTo: nat)
    requires 1 <= from && upTo <= |journal|
  {
    forall i :: from - 1 <= i < upTo ==> Readable(view(i + 1, journal[i]))
  }

  /** A page is exactly the selected records of the stretch it covers, within every bound, and it stops short of the tip only where a bound says so. */
  ghost predicate PageIsRight<T>(b: Bounds, journal: seq<seq<byte>>, view: View<T>, page: Page<T>)
    requires 1 <= b.from <= b.capturedTip <= |journal|
  {
    && b.from - 1 <= page.covered <= b.capturedTip
    && page.items == SelectedIn(journal, view, b.from, page.covered)
    && |page.items| <= b.limit && (|page.items| >= 2 ==> page.used <= b.maxBytes)
    && (b.scanLimit > 0 ==> page.covered + 1 - b.from <= b.scanLimit)
    && (page.truncated <==> page.covered < b.capturedTip)
    && (page.truncated ==> page.nextSeq == page.covered + 1 && StopsHere(b, journal, view, page))
  }

  lemma {:induction false} WalkIsRight<T>(b: Bounds, journal: seq<seq<byte>>, view: View<T>, items: seq<T>, used: nat, covered: nat)
    requires 1 <= b.from && b.from - 1 <= covered < b.capturedTip <= |journal| && b.limit >= 1
    requires items == SelectedIn(journal, view, b.from, covered) && |items| <= b.limit && (|items| >= 2 ==> used <= b.maxBytes)
    requires b.scanLimit > 0 ==> covered + 1 - b.from <= b.scanLimit
    requires Walk(b, journal, view, items, used, covered).Ok?
    ensures var page := Walk(b, journal, view, items, used, covered).value;
            PageIsRight(b, journal, view, page) && page.covered >= covered
            && (items == [] && !(b.scanLimit > 0 && covered + 1 - b.from >= b.scanLimit) ==> page.covered > covered)
    decreases b.capturedTip - covered
  {
    if !(b.scanLimit > 0 && covered + 1 - b.from >= b.scanLimit) {
      var look := view(covered + 1, journal[covered]);
      var next := if look.Selected? then items + [look.item] else items;
      var spent := if look.Selected? then used + look.cost else used;
      SelectedJoins(journal, view, b.from, covered, covered + 1);
      assert SelectedIn(journal, view, covered + 2, covered + 1) == [];
      if (look.Withheld? || (look.Selected? && |items| < b.limit && (|items| == 0 || spent <= b.maxBytes))) && covered + 1 < b.capturedTip {
        WalkIsRight(b, journal, view, next, spent, covered + 1);
      }
    }
  }

  lemma {:induction false} WalkReadsAll<T>(b: Bounds, journal: seq<seq<byte>>, view: View<T>, items: seq<T>, used: nat, covered: nat)
    requires 1 <= b.from && b.from - 1 <= covered < b.capturedTip <= |journal| && Undamaged(journal, view, b.from, covered)
    requires Walk(b, journal, view, items, used, covered).Ok?
    ensures var page := Walk(b, journal, view, items, used, covered).value;
            covered <= page.covered <= b.capturedTip && Undamaged(journal, view, b.from, page.covered)
    decreases b.capturedTip - covered
  {
    var look := view(covered + 1, journal[covered]);
    if Readable(look) && covered + 1 < b.capturedTip {
      var next := if look.Selected? then items + [look.item] else items;
      var spent := if look.Selected? then used + look.cost else used;
      if Walk(b, journal, view, items, used, covered) == Walk(b, journal, view, next, spent, covered + 1) {
        WalkReadsAll(b, journal, view, next, spent, covered + 1);
      }
    }
  }

  /** Every page that is returned strictly advances, and passes over nothing it could not
      read. */
  lemma PageMeaning<T>(b: Bounds, journal: seq<seq<byte>>, view: View<T>)
    requires 1 <= b.from <= b.capturedTip <= |journal| && b.limit >= 1 && ReadPage(b, journal, view).Ok?
    ensures PageIsRight(b, journal, view, ReadPage(b, journal, view).value)
    ensures ReadPage(b, journal, view).value.covered >= b.from
    ensures Undamaged(journal, view, b.from, ReadPage(b, journal, view).value.covered)
  {
    WalkIsRight(b, journal, view, [], 0, b.from - 1);
    WalkReadsAll(b, journal, view, [], 0, b.from - 1);
  }

  /** The record that fails a page: the first damaged one of the stretch, met before the
      page was full. One that does not decode fails it as damage, one that cannot be built
      with its own error. */
  ghost predicate FailsAt<T>(b: Bounds, journal: seq<seq<byte>>, view: View<T>, n: nat, e: JournalError)
    requires 1 <= b.from <= b.capturedTip <= |journal|
  {
    && b.from <= n <= b.capturedTip && Undamaged(journal, view, b.from, n - 1)
    && (b.scanLimit > 0 ==> n - b.from < b.scanLimit)
    && |SelectedIn(journal, view, b.from, n - 1)| <= b.limit
    && match view(n, journal[n - 1])
       case Undecodable => e == Integrity
       case Unbuildable(error) => e == error && |SelectedIn(journal, view, b.from, n - 1)| < b.limit
       case _ => false
  }

  lemma {:induction false} WalkFailsOnDamage<T>(b: Bounds, journal: seq<seq<byte>>, view: View<T>, items: seq<T>, used: nat, covered: nat)
    returns (n: nat)
    requires 1 <= b.from && b.from - 1 <= covered < b.capturedTip <= |journal|
    requires items == SelectedIn(journal, view, b.from, covered) && |items| <= b.limit && Undamaged(journal, view, b.from, covered)
    requires Walk(b, journal, view, items, used, covered).Err?
    ensures FailsAt(b, journal, view, n, Walk(b, journal, view, items, used, covered).error)
    decreases b.capturedTip - covered
  {
    n := covered + 1;
    var look := view(covered + 1, journal[covered]);
    if Readable(look) {
      var next := if look.Selected? then items + [look.item] else items;
      var spent := if look.Selected? then used + look.cost else used;
      SelectedJoins(journal, view, b.from, covered, covered + 1);
      assert SelectedIn(journal, view, covered + 2, covered + 1) == [];
      n := WalkFailsOnDamage(b, journal, view, next, spent, covered + 1);
    }
  }

  /** A page fails only on damage it met, and never covers any. */
  lemma PageFailsOnDamage<T>(b: Bounds, journal: seq<seq<byte>>, view: View<T>)
    requires 1 <= b.from <= b.capturedTip <= |journal| && b.limit >= 1
    ensures var page := ReadPage(b, journal, view);
            match page
            case Err(e) => exists n :: FailsAt(b, journal, view, n, e)
            case Ok(p) => b.from - 1 <= p.covered <= b.capturedTip && Undamaged(journal, view, b.from, p.covered)
  {
    if ReadPage(b, journal, view).Ok? {
      PageMeaning(b, journal, view);
    } else {
      var n := WalkFailsOnDamage(b, journal, view, [], 0, b.from - 1);
    }
  }

  /** What a walk reads of a longer journal is what it read of this one. */
  lemma {:induction false} AppendsAreInvisible<T>(b: Bounds, journal: seq<seq<byte>>, later: seq<seq<byte>>, view: View<T>,
                                                  items: seq<T>, used: nat, covered: nat)
    requires 1 <= b.from && b.from - 1 <= covered < b.capturedTip <= |journal| && journal <= later
    ensures Walk(b, later, view, items, used, covered) == Walk(b, journal, view, items, used, covered)
    decreases b.capturedTip - covered
  {
    var look := view(covered + 1, journal[covered]);
    if covered + 1 < b.capturedTip {
      AppendsAreInvisible(b, journal, later, view, if look.Selected? then items + [look.item] else items,
                          if look.Selected? then used + look.cost else used, covered + 1);
    }
  }

  // ---- positioning --------------------------------------------------------------------

  function PublicKind(): Magic4 { Ascii("LRJP") }
  function RuntimeKind(): Magic4 { Ascii("LRJR") }
  const JOURNAL_CURSOR_VERSION: byte := 1
  const JOURNAL_CURSOR_PAYLOAD: nat := 16

  datatype JournalCursorPosition = JournalCursorPosition(nextSeq: uint64, capturedTip: uint64)

  function PositionBytes(position: JournalCursorPosition): (bytes: seq<byte>)
    ensures |bytes| == 16
  {
    BigEndian(position.nextSeq, 8) + BigEndian(position.capturedTip, 8)
  }

  function EncodeJournalCursor(kind: Magic4, scope: Digest32, position: JournalCursorPosition): Text {
    EncodeCursor(kind, JOURNAL_CURSOR_VERSION, scope, PositionBytes(position))
  }

  function DecodeJournalCursor(kind: Magic4, scope: Digest32, cursor: Text, liveTip: nat): Option<JournalCursorPosition> {
    var payload := DecodeCursor(kind, JOURNAL_CURSOR_VERSION, scope, cursor, JOURNAL_CURSOR_PAYLOAD, JOURNAL_CURSOR_PAYLOAD);
    if payload.None? then None
    else
      assert |payload.value| == 16 by {
        AcceptedExactlyWhenIssued(kind, JOURNAL_CURSOR_VERSION, scope, cursor, 16, 16, payload.value);
      }
      var nextSeq, capturedTip := FromBigEndian(payload.value[..8]), FromBigEndian(payload.value[8..]);
      FromBigEndianBound(payload.value[..8]);
      FromBigEndianBound(payload.value[8..]);
      WordSizes();
      if nextSeq < 1 || capturedTip > liveTip || capturedTip + 1 < nextSeq then None
      else Some(JournalCursorPosition(nextSeq, capturedTip))
  }

  lemma PositionIsRead(position: JournalCursorPosition)
    ensures FromBigEndian(PositionBytes(position)[..8]) == position.nextSeq
    ensures FromBigEndian(PositionBytes(position)[8..]) == position.capturedTip
  {
    var payload := PositionBytes(position);
    WordSizes();
    BigEndianRoundTrip(position.nextSeq, 8);
    BigEndianRoundTrip(position.capturedTip, 8);
    assert payload[..8] == BigEndian(position.nextSeq, 8) && payload[8..] == BigEndian(position.capturedTip, 8);
  }

  lemma ReadPositionIsBytes(payload: seq<byte>, position: JournalCursorPosition)
    requires |payload| == 16 && FromBigEndian(payload[..8]) == position.nextSeq && FromBigEndian(payload[8..]) == position.capturedTip
    ensures payload == PositionBytes(position)
  {
    FromBigEndianRoundTrip(payload[..8]);
    FromBigEndianRoundTrip(payload[8..]);
    assert payload == payload[..8] + payload[8..];
  }

  predicate InSnapshot(position: JournalCursorPosition, liveTip: nat) {
    1 <= position.nextSeq <= position.capturedTip + 1 && position.capturedTip <= liveTip
  }

  lemma IssuedJournalCursor(kind: Magic4, scope: Digest32, liveTip: nat, position: JournalCursorPosition)
    requires InSnapshot(position, liveTip)
    ensures DecodeJournalCursor(kind, scope, EncodeJournalCursor(kind, scope, position), liveTip) == Some(position)
  {
    var cursor := EncodeJournalCursor(kind, scope, position);
    AcceptedExactlyWhenIssued(kind, JOURNAL_CURSOR_VERSION, scope, cursor, 16, 16, PositionBytes(position));
    PositionIsRead(position);
  }

  lemma AcceptedJournalCursor(kind: Magic4, scope: Digest32, cursor: Text, liveTip: nat, position: JournalCursorPosition)
    requires DecodeJournalCursor(kind, scope, cursor, liveTip) == Some(position)
    ensures cursor == EncodeJournalCursor(kind, scope, position) && InSnapshot(position, liveTip)
  {
    var payload := DecodeCursor(kind, JOURNAL_CURSOR_VERSION, scope, cursor, 16, 16).value;
    AcceptedExactlyWhenIssued(kind, JOURNAL_CURSOR_VERSION, scope, cursor, 16, 16, payload);
    ReadPositionIsBytes(payload, position);
  }

  /** A journal cursor is accepted exactly when it is the one issued for this kind,
      session and position, the position lies inside its snapshot or one past it,
      and the snapshot is no wider than the live stream. */
  lemma JournalCursorAcceptedExactlyWhen(kind: Magic4, scope: Digest32, cursor: Text, liveTip: nat, position: JournalCursorPosition)
    ensures DecodeJournalCursor(kind, scope, cursor, liveTip) == Some(position) <==>
              && cursor == EncodeJournalCursor(kind, scope, position)
              && 1 <= position.nextSeq <= position.capturedTip + 1 && position.capturedTip <= liveTip
  {
    if InSnapshot(position, liveTip) { IssuedJournalCursor(kind, scope, liveTip, position); }
    if DecodeJournalCursor(kind, scope, cursor, liveTip) == Some(position) {
      AcceptedJournalCursor(kind, scope, cursor, liveTip, position);
    }
  }

  /** A privileged cursor is never accepted by a public read, nor the other way, nor
      either under another session's scope. */
  lemma CursorsKeepToTheirProjection(kind: Magic4, scope: Digest32, position: JournalCursorPosition, other: Magic4, otherScope: Digest32, liveTip: nat)
    requires kind != other || scope != otherScope
    ensures DecodeJournalCursor(other, otherScope, EncodeJournalCursor(kind, scope, position), liveTip).None?
    ensures PublicKind() != RuntimeKind()
  {
    var cursor := EncodeJournalCursor(kind, scope, position);
    var seen := DecodeJournalCursor(other, otherScope, cursor, liveTip);
    assert PublicKind()[3] != RuntimeKind()[3];
    if seen.Some? {
      JournalCursorAcceptedExactlyWhen(other, otherScope, cursor, liveTip, seen.value);
      CursorNamesOnePlace(kind, JOURNAL_CURSOR_VERSION, scope, PositionBytes(position),
                          other, JOURNAL_CURSOR_VERSION, otherScope, PositionBytes(seen.value));
    }
  }

  datatype ReadRequest = ReadRequest(fromSeq: nat, cursor: Text, limit: int, tail: bool, scanLimit: int)

  /** What the store was configured with, and storage's page ceiling. */
  datatype ReaderLimits = ReaderLimits(maxOrderedPage: nat, maxPageSize: nat, maxPageBytes: int)

  const DEFAULT_JOURNAL_PAGE_BYTES: nat := 0x10_0000

  function PageLimit(limits: ReaderLimits, limit: int): Option<nat> {
    if limit < 0 || limit > limits.maxOrderedPage then None
    else if limit == 0 then Some(limits.maxPageSize)
    else Some(limit)
  }

  function PlanJournalRead(limits: ReaderLimits, kind: Magic4, scope: Digest32, req: ReadRequest, tip: nat): Result<Bounds, JournalError> {
    if req.scanLimit < 0 || req.scanLimit > limits.maxOrderedPage then Err(Invalid)
    else
      var limit := PageLimit(limits, req.limit);
      if limit.None? then Err(Invalid)
      else if req.tail && (req.cursor != [] || req.fromSeq != 0) then Err(Invalid)
      else if req.cursor != [] && req.fromSeq != 0 then Err(Invalid)
      else
        var maxBytes := if limits.maxPageBytes <= 0 then DEFAULT_JOURNAL_PAGE_BYTES else limits.maxPageBytes;
        if req.cursor != [] then
          var position := DecodeJournalCursor(kind, scope, req.cursor, tip);
          if position.None? then Err(BadCursor)
          else Ok(Bounds(position.value.nextSeq, position.value.capturedTip, limit.value, maxBytes, req.scanLimit))
        else
          var from := if req.tail && tip >= limit.value then tip - limit.value + 1 else req.fromSeq;
          Ok(Bounds(if from < 1 then 1 else from, tip, limit.value, maxBytes, req.scanLimit))
  }

  /** A read the store will plan: bounds it serves, and one way of saying where to start. */
  predicate GoodRead(limits: ReaderLimits, req: ReadRequest) {
    && 0 <= req.scanLimit <= limits.maxOrderedPage && 0 <= req.limit <= limits.maxOrderedPage
    && (req.tail ==> req.cursor == [] && req.fromSeq == 0) && (req.cursor != [] ==> req.fromSeq == 0)
  }

  function AskedLimit(limits: ReaderLimits, limit: int): int { if limit == 0 then limits.maxPageSize else limit }

  /** Where the request itself says to start, and under which tip: where the cursor says,
      within its own snapshot; or at the last records of the live one; or at the sequence
      asked for. */
  ghost predicate StartsAsAsked(kind: Magic4, scope: Digest32, req: ReadRequest, limit: int, tip: nat, from: nat, captured: nat) {
    if req.cursor != [] then
      && from < TWO_TO_THE_64 && captured < TWO_TO_THE_64 && 1 <= from <= captured + 1 && captured <= tip
      && req.cursor == EncodeJournalCursor(kind, scope, JournalCursorPosition(from, captured))
    else captured == tip && from == if req.tail then Max(1, tip + 1 - limit) else Max(1, req.fromSeq)
  }

  lemma CursorStartsAsAsked(kind: Magic4, scope: Digest32, req: ReadRequest, limit: int, tip: nat)
    requires req.cursor != []
    ensures match DecodeJournalCursor(kind, scope, req.cursor, tip)
            case None => forall from: nat, captured: nat :: !StartsAsAsked(kind, scope, req, limit, tip, from, captured)
            case Some(p) => StartsAsAsked(kind, scope, req, limit, tip, p.nextSeq, p.capturedTip)
  {
    var decoded := DecodeJournalCursor(kind, scope, req.cursor, tip);
    if decoded.Some? {
      JournalCursorAcceptedExactlyWhen(kind, scope, req.cursor, tip, decoded.value);
    } else {
      forall from: nat, captured: nat ensures !StartsAsAsked(kind, scope, req, limit, tip, from, captured) {
        if StartsAsAsked(kind, scope, req, limit, tip, from, captured) {
          JournalCursorAcceptedExactlyWhen(kind, scope, req.cursor, tip, JournalCursorPosition(from, captured));
        }
      }
    }
  }

  /** A plan is the request's own: it starts where the request says, under the tip the
      request says, with the bounds asked for. It is refused as invalid exactly when the
      request is not a good one, and as a bad cursor exactly when its cursor names no
      place in a snapshot this stream still holds. */
  lemma PlanIsAsAsked(limits: ReaderLimits, kind: Magic4, scope: Digest32, req: ReadRequest, tip: nat)
    ensures var plan := PlanJournalRead(limits, kind, scope, req, tip);
            && (plan == Err(Invalid) <==> !GoodRead(limits, req))
            && (plan == Err(BadCursor) <==>
                  GoodRead(limits, req) && forall from: nat, captured: nat :: !StartsAsAsked(kind, scope, req, AskedLimit(limits, req.limit), tip, from, captured))
            && (plan.Err? ==> plan.error == Invalid || plan.error == BadCursor)
            && (plan.Ok? ==>
                  var b := plan.value;
                  && StartsAsAsked(kind, scope, req, b.limit, tip, b.from, b.capturedTip)
                  && b.limit == AskedLimit(limits, req.limit) && b.scanLimit == req.scanLimit
                  && b.maxBytes == if limits.maxPageBytes > 0 then limits.maxPageBytes else 1_048_576)
  {
    if req.cursor != [] {
      CursorStartsAsAsked(kind, scope, req, AskedLimit(limits, req.limit), tip);
    } else {
      var limit := AskedLimit(limits, req.limit);
      assert StartsAsAsked(kind, scope, req, limit, tip, if req.tail then Max(1, tip + 1 - limit) else Max(1, req.fromSeq), tip);
    }
  }

  /** So a planned walk starts at a real sequence and never looks past the tip its
      snapshot was taken at, which is never past the live one. */
  lemma PlanIsInsideTheSnapshot(limits: ReaderLimits, kind: Magic4, scope: Digest32, req: ReadRequest, tip: nat)
    requires limits.maxPageSize >= 1 && PlanJournalRead(limits, kind, scope, req, tip).Ok?
    ensures var b := PlanJournalRead(limits, kind, scope, req, tip).value;
            && b.from >= 1 && b.limit >= 1 && b.maxBytes >= 1 && b.capturedTip <= tip
            && b.limit == AskedLimit(limits, req.limit) && b.scanLimit == req.scanLimit
            && StartsAsAsked(kind, scope, req, b.limit, tip, b.from, b.capturedTip)
  {
    PlanIsAsAsked(limits, kind, scope, req, tip);
  }

  function Max(a: int, b: int): int { if a < b then b else a }

  // ---- a whole walk, page by page --------------------------------------------------------

  /** One page request of a walk: the journal as it then is, and that page's own bounds. */
  datatype Turn = Turn(journal: seq<seq<byte>>, limit: int, scanLimit: int, limits: ReaderLimits)

  /** Everything a caller gets by following cursors: the items, and whether the
      last page said there is no more. */
  datatype Followed<T> = Followed(items: seq<T>, exhausted: bool)

  function FollowCursors<T>(kind: Magic4, scope: Digest32, view: View<T>, req: ReadRequest, turns: seq<Turn>)
    : Result<Followed<T>, JournalError>
    decreases |turns|
  {
    if turns == [] then Ok(Followed([], false))
    else
      var turn := turns[0];
      var plan := PlanJournalRead(turn.limits, kind, scope, req.(limit := turn.limit, scanLimit := turn.scanLimit), |turn.journal|);
      if plan.Err? then Err(plan.error)
      else if plan.value.from < 1 || plan.value.capturedTip > |turn.journal| then Err(Invalid)
      else
        var page := ReadPage(plan.value, turn.journal, view);
        if page.Err? then Err(page.error)
        else if !page.value.truncated then Ok(Followed(page.value.items, true))
        else if page.value.nextSeq >= TWO_TO_THE_64 || plan.value.capturedTip >= TWO_TO_THE_64 then Err(Invalid)
        else
          var cursor := EncodeJournalCursor(kind, scope, JournalCursorPosition(page.value.nextSeq, plan.value.capturedTip));
          var rest := FollowCursors(kind, scope, view, ReadRequest(0, cursor, 0, false, 0), turns[1..]);
          if rest.Err? then Err(rest.error) else Ok(rest.value.(items := page.value.items + rest.value.items))
  }

  ghost predicate GoodTurn(turn: Turn) {
    && turn.limits.maxPageSize >= 1 && PageLimit(turn.limits, turn.limit).Some?
    && 0 <= turn.scanLimit <= turn.limits.maxOrderedPage && |turn.journal| < TWO_TO_THE_64
  }

  /** Later pages find the journal as it was, and possibly longer. */
  ghost predicate GoodTurns(turns: seq<Turn>) {
    && (forall i :: 0 <= i < |turns| ==> GoodTurn(turns[i]))
    && (forall i, j :: 0 <= i < j < |turns| ==> turns[i].journal <= turns[j].journal)
  }

  /** Every record of the snapshot decodes and builds. */
  ghost predicate Healthy<T>(journal: seq<seq<byte>>, view: View<T>, tip: nat)
    requires tip <= |journal|
  {
    forall i :: 0 <= i < tip ==> Readable(view(i + 1, journal[i]))
  }

  predicate Readable<T>(look: Look<T>) { look.Withheld? || look.Selected? }

  lemma {:induction false} HealthyWalksReturn<T>(b: Bounds, journal: seq<seq<byte>>, view: View<T>, items: seq<T>, used: nat, covered: nat)
    requires 1 <= b.from && b.from - 1 <= covered < b.capturedTip <= |journal| && Healthy(journal, view, b.capturedTip)
    ensures Walk(b, journal, view, items, used, covered).Ok?
    decreases b.capturedTip - covered
  {
    var look := view(covered + 1, journal[covered]);
    assert Readable(look);
    if covered + 1 < b.capturedTip {
      HealthyWalksReturn(b, journal, view, if look.Selected? then items + [look.item] else items,
                         if look.Selected? then used + look.cost else used, covered + 1);
    }
  }

  lemma HealthyPageReturns<T>(b: Bounds, journal: seq<seq<byte>>, view: View<T>)
    requires 1 <= b.from <= b.capturedTip <= |journal|
    ensures Healthy(journal, view, b.capturedTip) ==> ReadPage(b, journal, view).Ok?
  {
    if Healthy(journal, view, b.capturedTip) { HealthyWalksReturn(b, journal, view, [], 0, b.from - 1); }
  }

  lemma HealthyLater<T>(journal: seq<seq<byte>>, later: seq<seq<byte>>, view: View<T>, tip: nat)
    requires tip <= |journal| && journal <= later
    ensures Healthy(journal, view, tip) ==> Healthy(later, view, tip)
  {
    if Healthy(journal, view, tip) {
      forall i | 0 <= i < tip ensures Readable(view(i + 1, later[i])) { assert later[i] == journal[i]; }
    }
  }

  lemma {:induction false} SelectedInPrefix<T>(journal: seq<seq<byte>>, later: seq<seq<byte>>, view: View<T>, from: nat, upTo: nat)
    requires 1 <= from && upTo <= |journal| && journal <= later
    ensures SelectedIn(later, view, from, upTo) == SelectedIn(journal, view, from, upTo)
    decreases upTo + 1 - from
  {
    if from <= upTo { SelectedInPrefix(journal, later, view, from + 1, upTo); }
  }

  function Resuming(kind: Magic4, scope: Digest32, from: uint64, tip: uint64): ReadRequest {
    ReadRequest(0, EncodeJournalCursor(kind, scope, JournalCursorPosition(from, tip)), 0, false, 0)
  }

  /** An issued cursor is accepted back at any later moment, under any page bounds,
      and resumes exactly where its page stopped. */
  lemma IssuedCursorsAreAccepted(turn: Turn, kind: Magic4, scope: Digest32, from: uint64, tip: uint64)
    requires GoodTurn(turn) && 1 <= from <= tip + 1 && tip <= |turn.journal|
    ensures var req := Resuming(kind, scope, from, tip);
            var plan := PlanJournalRead(turn.limits, kind, scope, req.(limit := turn.limit, scanLimit := turn.scanLimit), |turn.journal|);
            && plan.Ok? && plan.value.from == from && plan.value.capturedTip == tip && plan.value.limit >= 1
  {
    var req := Resuming(kind, scope, from, tip);
    JournalCursorAcceptedExactlyWhen(kind, scope, req.cursor, |turn.journal|, JournalCursorPosition(from, tip));
    CursorIsNotEmpty(kind, scope, JournalCursorPosition(from, tip));
  }

  lemma CursorIsNotEmpty(kind: Magic4, scope: Digest32, position: JournalCursorPosition)
    ensures EncodeJournalCursor(kind, scope, position) != []
  {
  }

  function PlanOf(turn: Turn, kind: Magic4, scope: Digest32, req: ReadRequest): Result<Bounds, JournalError> {
    PlanJournalRead(turn.limits, kind, scope, req.(limit := turn.limit, scanLimit := turn.scanLimit), |turn.journal|)
  }

  /** One turn of a walk: its page, and the rest joined to it. */
  lemma FollowOneTurn<T>(kind: Magic4, scope: Digest32, view: View<T>, req: ReadRequest, turns: seq<Turn>, b: Bounds)
    requires turns != [] && PlanOf(turns[0], kind, scope, req) == Ok(b)
    requires 1 <= b.from && b.capturedTip <= |turns[0].journal| && b.capturedTip < TWO_TO_THE_64
    ensures var page, all := ReadPage(b, turns[0].journal, view), FollowCursors(kind, scope, view, req, turns);
            match page
            case Err(e) => all == Err(e)
            case Ok(p) =>
              && (!p.truncated ==> all == Ok(Followed(p.items, true)))
              && (p.truncated && p.nextSeq < TWO_TO_THE_64 ==>
                    all == Joined(p.items, FollowCursors(kind, scope, view, Resuming(kind, scope, p.nextSeq, b.capturedTip), turns[1..])))
  {
  }

  /** What following cursors from a plan `b` has come to: nothing but the selected
      records of the snapshot's stretch through `covered`. */
  ghost predicate FollowedThrough<T>(journal: seq<seq<byte>>, view: View<T>, b: Bounds, turns: nat,
                                     all: Result<Followed<T>, JournalError>, covered: nat)
    requires b.from >= 1 && b.capturedTip <= |journal|
  {
    all.Ok? ==>
      && covered <= b.capturedTip
      && all.value.items == SelectedIn(journal, view, b.from, covered)
      && (all.value.exhausted ==> covered == b.capturedTip)
      && (!all.value.exhausted ==> b.from - 1 + turns <= covered < b.capturedTip)
  }

  /** A page that is not truncated ends the walk, having covered the snapshot. */
  lemma PageThatEnds<T>(b: Bounds, journal: seq<seq<byte>>, view: View<T>, turns: nat)
    requires b.from >= 1 && b.capturedTip <= |journal| && b.limit >= 1
    ensures var page := ReadPage(b, journal, view);
            page.Ok? && !page.value.truncated ==>
              FollowedThrough(journal, view, b, turns, Ok(Followed(page.value.items, true)), b.capturedTip)
  {
    if b.from <= b.capturedTip && ReadPage(b, journal, view).Ok? { PageMeaning(b, journal, view); }
  }

  /** Following cursors from any first page, whatever is appended between pages and
      whatever each page's bounds, yields exactly the selected records of the first
      page's snapshot, from where the first request said to start, once each and in order. Every turn covers at least one more
      record, so the walk ends within the snapshot's length; on a readable snapshot
      it never fails. */
  lemma {:induction false} FollowedIsTheSnapshot<T>(kind: Magic4, scope: Digest32, view: View<T>, req: ReadRequest, turns: seq<Turn>)
    returns (covered: nat)
    requires turns != [] && GoodTurns(turns) && PlanOf(turns[0], kind, scope, req).Ok?
    ensures var b, all := PlanOf(turns[0], kind, scope, req).value, FollowCursors(kind, scope, view, req, turns);
            && b.from >= 1 && b.capturedTip <= |turns[0].journal|
            && StartsAsAsked(kind, scope, req, AskedLimit(turns[0].limits, turns[0].limit), |turns[0].journal|, b.from, b.capturedTip)
            && (Healthy(turns[0].journal, view, b.capturedTip) ==> all.Ok?)
            && FollowedThrough(turns[0].journal, view, b, |turns|, all, covered)
    decreases |turns|, 1
  {
    var turn := turns[0];
    PlanIsInsideTheSnapshot(turn.limits, kind, scope, req.(limit := turn.limit, scanLimit := turn.scanLimit), |turn.journal|);
    var b := PlanOf(turn, kind, scope, req).value;
    covered := b.capturedTip;
    FollowOneTurn(kind, scope, view, req, turns, b);
    PageThatEnds(b, turn.journal, view, |turns|);
    if b.from <= b.capturedTip {
      HealthyPageReturns(b, turn.journal, view);
      var page := ReadPage(b, turn.journal, view);
      if page.Ok? && page.value.truncated {
        PageMeaning(b, turn.journal, view);
        covered := ResumedWalk(kind, scope, view, turns, b, page.value);
      }
    }
  }

  /** After a truncated page: what the rest of the turns bring, joined to it. */
  lemma {:induction false} ResumedWalk<T>(kind: Magic4, scope: Digest32, view: View<T>, turns: seq<Turn>, b: Bounds, page: Page<T>)
    returns (covered: nat)
    requires turns != [] && GoodTurns(turns) && 1 <= b.from <= b.capturedTip <= |turns[0].journal|
    requires PageIsRight(b, turns[0].journal, view, page) && page.truncated && page.covered >= b.from
    ensures page.nextSeq < TWO_TO_THE_64 && b.capturedTip < TWO_TO_THE_64
    ensures var rest := FollowCursors(kind, scope, view, Resuming(kind, scope, page.nextSeq, b.capturedTip), turns[1..]);
            && (Healthy(turns[0].journal, view, b.capturedTip) ==> rest.Ok?)
            && FollowedThrough(turns[0].journal, view, b, |turns|, Joined(page.items, rest), covered)
    decreases |turns|, 0
  {
    assert GoodTurn(turns[0]);
    var rest, next := turns[1..], Resuming(kind, scope, page.nextSeq, b.capturedTip);
    covered := page.covered;
    if rest != [] {
      var journal, later := turns[0].journal, rest[0].journal;
      assert journal <= later && GoodTurn(rest[0]);
      IssuedCursorsAreAccepted(rest[0], kind, scope, page.nextSeq, b.capturedTip);
      covered := FollowedIsTheSnapshot(kind, scope, view, next, rest);
      HealthyLater(journal, later, view, b.capturedTip);
      if FollowCursors(kind, scope, view, next, rest).Ok? {
        SelectedInPrefix(journal, later, view, page.nextSeq, covered);
        SelectedJoins(journal, view, b.from, page.covered, covered);
      }
    }
  }

  function Joined<T>(items: seq<T>, rest: Result<Followed<T>, JournalError>): Result<Followed<T>, JournalError> {
    if rest.Err? then rest else Ok(rest.value.(items := items + rest.value.items))
  }
}
