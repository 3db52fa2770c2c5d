/** A session's durable consumer position: two fences in front of one compare-and-
    swap, and pages of commands in acceptance order. Following pages from a loaded
    position loses no command. */
module Consumption {
  import opened Wrappers
  import opened Bytes
  import opened Clock
  import opened Storage
  import I = Inbox

  datatype CommandCursor = CommandCursor(leaseEpoch: uint64, consumedOrder: uint64, updatedAt: Instant)

  datatype SaveError = InvalidCursor | EpochSuperseded(epoch: uint64, order: uint64) | OrderBehind(epoch: uint64, order: uint64) | SaveConflict(revision: nat) | CursorDeleted | Misfiled

  predicate ValidCursor(c: CommandCursor) { c.leaseEpoch != 0 && c.consumedOrder != 0 && Rankable(c.updatedAt) }

  /** Both fences, in order: a superseded epoch first, then a position behind. */
  function Fences(current: CommandCursor, epoch: uint64, order: uint64): (refused: Option<SaveError>)
    ensures refused.None? <==> current.leaseEpoch <= epoch && current.consumedOrder <= order
    ensures refused.Some? ==> (refused.value.EpochSuperseded? || refused.value.OrderBehind?) && refused.value.epoch == current.leaseEpoch && refused.value.order == current.consumedOrder
    ensures refused.Some? && refused.value.OrderBehind? ==> current.leaseEpoch <= epoch
  {
    if epoch < current.leaseEpoch then Some(EpochSuperseded(current.leaseEpoch, current.consumedOrder))
    else if order < current.consumedOrder then Some(OrderBehind(current.leaseEpoch, current.consumedOrder))
    else None
  }

  predicate NotBehind(c: CommandCursor, next: CommandCursor) {
    c.leaseEpoch <= next.leaseEpoch && c.consumedOrder <= next.consumedOrder
  }

  /** One save as its store performs it: the row read before the write may be one
      another saver has since replaced. */
  class CursorStore {
    const key: Text
    const index: OrderedIndex<CommandCursor>

    predicate Valid()
      reads index
    {
      key in index.rows && !index.rows[key].deleted ==>
        ValidCursor(index.rows[key].value) && index.rows[key].rank == Unranked && index.rows[key].due == NotDue
    }

    constructor (key: Text)
      ensures Valid() && fresh(index) && index.rows == map[] && this.key == key
    {
      this.key := key;
      index := new OrderedIndex<CommandCursor>();
    }

    /** Success leaves exactly the offered cursor, at or past the one it replaced;
        every refusal leaves the row as it was. `seen` is this save's own earlier read. */
    method SaveDispositionCommandCursor(epoch: uint64, order: uint64, now: Instant, seen: Option<Row<CommandCursor>>)
      returns (r: Result<CommandCursor, SaveError>)
      requires Valid()
      requires seen.Some? ==> key in index.rows && seen.value.revision <= index.rows[key].revision
      requires seen.Some? && index.rows[key].revision == seen.value.revision ==> index.rows[key] == seen.value
      modifies index
      ensures Valid()
      ensures forall k :: k in old(index.rows) && k != key ==> k in index.rows && index.rows[k] == old(index.rows)[k]
      ensures r.Err? ==> index.rows == old(index.rows)
      ensures r.Ok? ==>
                && ValidCursor(r.value) && r.value == CommandCursor(epoch, order, now)
                && key in index.rows && index.rows[key].value == r.value
                && (key in old(index.rows) ==> NotBehind(old(index.rows)[key].value, r.value))
      ensures seen == (if key in old(index.rows) then Some(old(index.rows)[key]) else None) ==>
                r == if epoch == 0 || order == 0 || !Rankable(now) then Err(InvalidCursor)
                     else if seen.None? then Ok(CommandCursor(epoch, order, now))
                     else if seen.value.deleted then Err(CursorDeleted)
                     else match Fences(seen.value.value, epoch, order)
                          case Some(e) => Err(e)
                          case None => Ok(CommandCursor(epoch, order, now))
    {
      var cursor := CommandCursor(epoch, order, now);
      if !ValidCursor(cursor) {
        return Err(InvalidCursor);
      }
      if seen.None? {
        var row, created := index.Create(key, cursor, Unranked, NotDue);
        return if created then Ok(cursor) else Err(SaveConflict(row.revision));
      }
      if seen.value.deleted {
        return Err(CursorDeleted);
      }
      var fenced := Fences(seen.value.value, epoch, order);
      if fenced.Some? {
        return Err(fenced.value);
      }
      var stored := index.Update(key, seen.value.revision, cursor, Unranked, NotDue);
      if stored.Err? {
        return Err(match stored.error
                   case RevisionConflict(actual) => SaveConflict(actual)
                   case _ => CursorDeleted);
      }
      r := Ok(cursor);
    }
  }

  // ---- a page of commands -------------------------------------------------------------

  /** One row of a provider's ordered listing, and whether it reads back as the
      command its filing names. */
  datatype Listed = Listed(order: nat, readable: bool)

  datatype ListError = Identity | TooMany

  predicate Ascends(rows: seq<Listed>, after: nat) {
    && (forall i :: 0 <= i < |rows| ==> rows[i].order > after)
    && (forall i, j :: 0 <= i < j < |rows| ==> rows[i].order < rows[j].order)
  }

  predicate AllReadable(rows: seq<Listed>) { forall i :: 0 <= i < |rows| ==> rows[i].readable }

  /** A provider's page is believed exactly when it is in bound, strictly ascending
      above the position asked for, wholly readable, and continues from its own end. */
  method AcceptPage(rows: seq<Listed>, after: nat, limit: nat, nextAfterOrder: nat) returns (r: Result<nat, ListError>)
    ensures r.Ok? <==>
              && |rows| <= limit && Ascends(rows, after) && AllReadable(rows)
              && nextAfterOrder == if rows == [] then 0 else rows[|rows| - 1].order
    ensures r.Ok? ==> r.value == nextAfterOrder
    ensures r == Err(TooMany) <==> |rows| > limit
  {
    if |rows| > limit {
      return Err(TooMany);
    }
    var previous := after;
    for i := 0 to |rows|
      invariant previous == if i == 0 then after else rows[i - 1].order
      invariant Ascends(rows[..i], after) && AllReadable(rows[..i])
      invariant previous >= after
    {
      if rows[i].order <= previous {
        assert i > 0 ==> rows[i - 1].order >= rows[i].order;
        return Err(Identity);
      }
      previous := rows[i].order;
      if !rows[i].readable {
        return Err(Identity);
      }
      assert rows[..i + 1] == rows[..i] + [rows[i]];
      assert forall k :: 0 <= k < i ==> rows[..i][k].order <= (if i == 0 then after else rows[..i][i - 1].order);
    }
    assert rows[..|rows|] == rows;
    if rows == [] {
      return if nextAfterOrder != 0 then Err(Identity) else Ok(0);
    }
    r := if nextAfterOrder != previous then Err(Identity) else Ok(nextAfterOrder);
  }

  // ---- every run of consumers ------------------------------------------------------------

  /** `position` is the last order this consumer was paged, from where it loaded. */
  datatype Consumer = Consumer(epoch: uint64, position: uint64)

  datatype Save = Save(cursor: CommandCursor, seen: Option<Stored>)

  datatype Stored = Stored(cursor: CommandCursor, revision: nat)

  /** `observed` is the highest order any listing has shown; `handed` every order
      some consumer was paged. */
  datatype State = State(
    rows: set<uint64>,
    stored: Option<Stored>,
    consumers: map<nat, Consumer>,
    saves: map<nat, Save>,
    handed: set<uint64>,
    observed: uint64)

  datatype Action =
    | Reveal(order: uint64)
    | Load(id: nat, epoch: uint64)
    | Page(id: nat, last: uint64)
    | BeginSave(op: nat, id: nat, order: uint64, now: Instant)
    | CommitSave(op: nat, lands: bool)
    | Forget(id: nat)

  const INITIAL := State({}, None, map[], map[], {}, 0)

  function Upto(rows: set<uint64>, after: uint64, last: uint64): set<uint64> { set o | o in rows && after < o <= last }

  predicate Enabled(s: State, a: Action) {
    match a
    case Reveal(o) => o !in s.rows && o > s.observed
    case Load(_, epoch) => epoch != 0
    case Page(id, last) => id in s.consumers && last in s.rows && last > s.consumers[id].position
    case BeginSave(op, id, order, now) =>
      op !in s.saves && id in s.consumers && order <= s.consumers[id].position
      && ValidCursor(CommandCursor(s.consumers[id].epoch, order, now))
    case CommitSave(op, _) => op in s.saves
    case Forget(_) => true
  }

  /** The save's write: fenced against what it read, onto the revision it read. */
  predicate Writes(s: State, save: Save) {
    match save.seen
    case None => s.stored.None?
    case Some(seen) =>
      && Fences(seen.cursor, save.cursor.leaseEpoch, save.cursor.consumedOrder).None?
      && s.stored.Some? && s.stored.value.revision == seen.revision
  }

  function Apply(s: State, a: Action): State
    requires Enabled(s, a)
  {
    match a
    case Reveal(o) => s.(rows := s.rows + {o})
    case Load(id, epoch) =>
      s.(consumers := s.consumers[id := Consumer(epoch, if s.stored.Some? then s.stored.value.cursor.consumedOrder else 0)])
    case Page(id, last) =>
      s.(consumers := s.consumers[id := s.consumers[id].(position := last)],
         handed := s.handed + Upto(s.rows, s.consumers[id].position, last),
         observed := if last > s.observed then last else s.observed)
    case BeginSave(op, id, order, now) =>
      s.(saves := s.saves[op := Save(CommandCursor(s.consumers[id].epoch, order, now), s.stored)])
    case CommitSave(op, lands) =>
      var save := s.saves[op];
      var rest := s.(saves := s.saves - {op});
      if lands && Writes(s, save)
      then rest.(stored := Some(Stored(save.cursor, if s.stored.Some? then s.stored.value.revision + 1 else 1)))
      else rest
    case Forget(id) => s.(consumers := s.consumers - {id})
  }

  function After(run: seq<Action>): Option<State> {
    if run == [] then Some(INITIAL)
    else
      var before := After(run[..|run| - 1]);
      if before.Some? && Enabled(before.value, run[|run| - 1]) then Some(Apply(before.value, run[|run| - 1])) else None
  }

  /** Every command at or below a position has been handed to some consumer, and
      no new one can appear there. */
  ghost predicate Settled(s: State, position: uint64) {
    position <= s.observed && forall o :: o in s.rows && o <= position ==> o in s.handed
  }

  ghost predicate SaveKept(s: State, save: Save) {
    ValidCursor(save.cursor) && Settled(s, save.cursor.consumedOrder) && SeenFresh(s, save)
  }

  /** What a save read is still stored, or has been replaced. */
  ghost predicate SeenFresh(s: State, save: Save) {
    save.seen.Some? ==>
      && s.stored.Some? && save.seen.value.revision <= s.stored.value.revision
      && (save.seen.value.revision == s.stored.value.revision ==> save.seen == s.stored)
  }

  ghost predicate Inv(s: State) {
    && 0 !in s.rows
    && (forall id :: id in s.consumers ==> Settled(s, s.consumers[id].position))
    && (forall op :: op in s.saves ==> SaveKept(s, s.saves[op]))
    && (s.stored.Some? ==> ValidCursor(s.stored.value.cursor) && Settled(s, s.stored.value.cursor.consumedOrder))
  }

  lemma SettledStays(s: State, a: Action, position: uint64)
    requires Enabled(s, a) && Settled(s, position)
    ensures Settled(Apply(s, a), position)
  {
  }

  lemma InvStep(s: State, a: Action)
    requires Inv(s) && Enabled(s, a)
    ensures Inv(Apply(s, a))
    ensures s.stored.Some? ==>
              Apply(s, a).stored.Some? && NotBehind(s.stored.value.cursor, Apply(s, a).stored.value.cursor)
  {
    var t := Apply(s, a);
    forall id | id in t.consumers ensures Settled(t, t.consumers[id].position) {
      if id in s.consumers { SettledStays(s, a, s.consumers[id].position); }
      if s.stored.Some? { SettledStays(s, a, s.stored.value.cursor.consumedOrder); }
      if a.Page? && id == a.id {
        assert forall o :: o in s.rows && s.consumers[id].position < o <= a.last ==> o in Upto(s.rows, s.consumers[id].position, a.last);
      }
    }
    forall op | op in t.saves ensures SaveKept(t, t.saves[op]) {
      if op in s.saves {
        assert SaveKept(s, s.saves[op]);
        SettledStays(s, a, s.saves[op].cursor.consumedOrder);
      }
    }
    if s.stored.Some? { SettledStays(s, a, s.stored.value.cursor.consumedOrder); }
    if a.CommitSave? {
      assert SaveKept(s, s.saves[a.op]);
      SettledStays(s, a, s.saves[a.op].cursor.consumedOrder);
    }
  }

  lemma {:induction false} EveryRunKeepsInv(run: seq<Action>)
    requires After(run).Some?
    ensures Inv(After(run).value)
  {
    if run != [] {
      EveryRunKeepsInv(run[..|run| - 1]);
      InvStep(After(run[..|run| - 1]).value, run[|run| - 1]);
    }
  }

  /** Under any concurrent savers the stored epoch and position never decrease. */
  lemma {:induction false} PositionsOnlyRise(run: seq<Action>, n: nat)
    requires n <= |run| && After(run).Some?
    ensures After(run[..n]).Some?
    ensures var s, t := After(run[..n]).value, After(run).value;
            s.stored.Some? ==> t.stored.Some? && NotBehind(s.stored.value.cursor, t.stored.value.cursor)
    decreases |run|
  {
    if n == |run| {
      assert run[..n] == run;
    } else {
      var front := run[..|run| - 1];
      assert front[..n] == run[..n];
      PositionsOnlyRise(front, n);
      EveryRunKeepsInv(front);
      InvStep(After(front).value, run[|run| - 1]);
    }
  }

  /** Consumers that save only what they were paged from a loaded position lose
      nothing: in every run, each command at or below the stored position was handed
      to some consumer, provided no row appears below an order already shown. */
  lemma NothingIsSkipped(run: seq<Action>, order: uint64)
    requires After(run).Some? && After(run).value.stored.Some?
    requires order in After(run).value.rows && order <= After(run).value.stored.value.cursor.consumedOrder
    ensures order in After(run).value.handed
  {
    EveryRunKeepsInv(run);
  }

  // ---- a row that breaks the index's promise -----------------------------------------------

  function AfterFrom(s: State, run: seq<Action>): Option<State> {
    if run == [] then Some(s)
    else
      var before := AfterFrom(s, run[..|run| - 1]);
      if before.Some? && Enabled(before.value, run[|run| - 1]) then Some(Apply(before.value, run[|run| - 1])) else None
  }

  /** The index shows a row it had not shown, below an order already observed. */
  function Late(s: State, order: uint64): State { s.(rows := s.rows + {order}) }

  /** Everyone who may still page has been paged past this order, and it was not there. */
  ghost predicate PassedBy(s: State, order: uint64) {
    && order !in s.handed && s.stored.Some? && order <= s.stored.value.cursor.consumedOrder
    && (forall id :: id in s.consumers ==> order <= s.consumers[id].position)
    && (forall op :: op in s.saves ==> SeenFresh(s, s.saves[op]))
  }

  lemma PassedByStep(s: State, a: Action, order: uint64)
    requires PassedBy(s, order) && Enabled(s, a)
    ensures PassedBy(Apply(s, a), order)
  {
  }

  lemma {:induction false} PassedByForGood(s: State, run: seq<Action>, order: uint64)
    requires PassedBy(s, order) && AfterFrom(s, run).Some?
    ensures PassedBy(AfterFrom(s, run).value, order)
  {
    if run != [] {
      PassedByForGood(s, run[..|run| - 1], order);
      PassedByStep(AfterFrom(s, run[..|run| - 1]).value, run[|run| - 1], order);
    }
  }

  ghost predicate NeverHanded(s: State, order: uint64, more: seq<Action>) {
    AfterFrom(s, more).Some? ==>
      && order !in AfterFrom(s, more).value.handed
      && AfterFrom(s, more).value.stored.Some? && order <= AfterFrom(s, more).value.stored.value.cursor.consumedOrder
  }

  /** That proviso is needed. A row that appears at or below the stored position is
      handed to no consumer in any continuation, while the stored position stays at or
      above it, exactly when no consumer is still behind it; one still behind it would
      be paged it next. */
  lemma LateRowsAreLostExactlyWhen(s: State, order: uint64)
    requires Inv(s) && s.stored.Some? && order <= s.stored.value.cursor.consumedOrder && order !in s.rows && order !in s.handed
    ensures (forall more :: NeverHanded(Late(s, order), order, more)) <==>
              forall id :: id in s.consumers ==> order <= s.consumers[id].position
  {
    var late := Late(s, order);
    if forall id :: id in s.consumers ==> order <= s.consumers[id].position {
      assert PassedBy(late, order) by {
        forall op | op in late.saves ensures SeenFresh(late, late.saves[op]) { assert SaveKept(s, s.saves[op]); }
      }
      forall more ensures NeverHanded(late, order, more) {
        if AfterFrom(late, more).Some? { PassedByForGood(late, more, order); }
      }
    } else {
      var id :| id in s.consumers && s.consumers[id].position < order;
      var more := [Page(id, order)];
      assert more[..0] == [];
      assert AfterFrom(late, []) == Some(late);
      assert AfterFrom(late, more) == Some(Apply(late, Page(id, order)));
      assert !NeverHanded(late, order, more);
    }
  }
}
