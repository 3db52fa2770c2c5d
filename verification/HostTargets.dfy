/** The Host directory: heartbeats, drains and the sweep that withdraws what lapsed.
    Rank and due are functions of the record, a generation only rises, and a sweep
    decides on the row's own stored expiry. */
module HostTargets {
  import opened Wrappers
  import opened Bytes
  import opened Clock
  import opened Storage

  const MAX_AVAILABLE_CAPACITY: nat := 0x10_0000
  const MAX_HOST_TARGET_TTL: int := 900_000_000_000

  datatype Advertisement = Advertisement(endpoint: Text, accepting: bool, availableCapacity: nat, expiresAt: Instant)

  /** A withdrawn target keeps its identity, its generation and no advertisement. */
  datatype HostTarget = HostTarget(
    key: Text,
    hostID: Text,
    generation: uint64,
    observedAt: Instant,
    advertisement: Option<Advertisement>)
  {
    predicate Withdrawn() { advertisement.None? }
  }

  /** A stored value that decodes, or one that does not. */
  datatype Value = Readable(target: HostTarget) | Garbage

  type Report = HostTarget -> bool

  predicate ValidTarget(report: Report, t: HostTarget) {
    && t.generation != 0 && Rankable(t.observedAt)
    && (t.advertisement.Some? ==>
          && Rankable(t.advertisement.value.expiresAt) && t.advertisement.value.availableCapacity <= MAX_AVAILABLE_CAPACITY
          && report(t))
  }

  function TargetRank(t: HostTarget): Rank {
    if t.Withdrawn() || !t.advertisement.value.accepting then Unranked else Ranked(t.advertisement.value.availableCapacity)
  }

  function TargetDue(t: HostTarget): Due {
    if t.Withdrawn() then NotDue else DueAt(UnixMilli(t.advertisement.value.expiresAt))
  }

  predicate Lapsed(t: HostTarget, now: Instant) { !t.Withdrawn() && now >= t.advertisement.value.expiresAt }

  function Withdrawal(t: HostTarget, now: Instant): HostTarget { t.(advertisement := None, observedAt := now) }

  predicate ExpiredBy(t: HostTarget, now: Instant) { t.advertisement.Some? && t.advertisement.value.expiresAt <= now }

  /** Every expired row is in the due view at the sweep's own bound and no row is there a
      millisecond early, a withdrawn one is in neither view, and exactly an accepting one
      is ranked, by its capacity. */
  lemma FiledWhereTheSweepLooks(t: HostTarget, now: Instant)
    ensures ExpiredBy(t, now) ==> TargetDue(t).DueAt? && TargetDue(t).unixMillis <= UnixMilli(now)
    ensures TargetDue(t).DueAt? && TargetDue(t).unixMillis <= UnixMilli(now) ==> t.advertisement.value.expiresAt - now < 1_000_000
    ensures TargetDue(t) == NotDue <==> t.advertisement.None?
    ensures TargetRank(t).Ranked? <==> t.advertisement.Some? && t.advertisement.value.accepting
    ensures TargetRank(t).Ranked? ==> TargetRank(t).value == t.advertisement.value.availableCapacity
  {
    if t.advertisement.Some? { FiledToTheMillisecond(t.advertisement.value.expiresAt, now); }
  }

  type TargetRow = Row<Value>

  /** A row that decodes to what its key names, filed where its record says. */
  predicate Filed(report: Report, host: Text, row: TargetRow) {
    && !row.deleted && row.value.Readable? && ValidTarget(report, row.value.target) && row.value.target.hostID == host
    && row.rank == TargetRank(row.value.target) && row.due == TargetDue(row.value.target)
  }

  datatype HostTargetError =
    | NotFound | Conflict(revision: nat) | Deleted | Generation(committed: nat) | Invalid | Identity | Unknown | BackendFailure

  // ---- what each call decides on the row it read ----------------------------------------

  datatype Request =
    | Publish(target: HostTarget)
    | Drain(host: Text, generation: uint64)
    | Sweep

  datatype Decision = Create(t: HostTarget) | Write(t: HostTarget) | Leave

  function GenerationFence(current: HostTarget, generation: uint64): Option<HostTargetError> {
    if generation < current.generation then Some(Generation(current.generation)) else None
  }

  predicate ValidRequest(report: Report, req: Request, now: Instant) {
    match req
    case Publish(t) =>
      ValidTarget(report, t) && t.advertisement.Some? && BoundedExpiry(t.advertisement.value.expiresAt, now, MAX_HOST_TARGET_TTL)
    case Drain(_, generation) => generation != 0 && Rankable(now)
    case Sweep => true
  }

  function Decide(report: Report, host: Text, row: Option<TargetRow>, req: Request, now: Instant): Result<Decision, HostTargetError> {
    if row.None? then (match req case Publish(t) => Ok(Create(t)) case Drain(_, _) => Err(HostTargetError.NotFound) case Sweep => Ok(Leave))
    else if row.value.deleted then Err(Deleted)
    else if !Filed(report, host, row.value) then Err(Identity)
    else
      var current := row.value.value.target;
      match req
      case Publish(t) =>
        var fenced := GenerationFence(current, t.generation);
        if fenced.Some? then Err(fenced.value) else Ok(Write(t))
      case Drain(_, generation) =>
        var fenced := GenerationFence(current, generation);
        if fenced.Some? then Err(fenced.value)
        else if current.Withdrawn() && current.generation == generation then Ok(Leave)
        else Ok(Write(HostTarget(current.key, current.hostID, generation, now, None)))
      case Sweep =>
        if !Lapsed(current, now) then Ok(Leave)
        else if !ValidTarget(report, Withdrawal(current, now)) then Err(Invalid)
        else Ok(Write(Withdrawal(current, now)))
  }

  // ---- every answer, read off the row -----------------------------------------------------

  /** A target the directory stores: a generation, an instant it can hold, and for an
      advertisement a lapse it can hold, a capacity in bound and a report Core accepts. */
  predicate GoodTarget(report: Report, t: HostTarget) {
    && t.generation >= 1 && Rankable(t.observedAt)
    && match t.advertisement
       case None => true
       case Some(ad) => Rankable(ad.expiresAt) && ad.availableCapacity <= 1_048_576 && report(t)
  }

  predicate GoodRequest(report: Report, req: Request, now: Instant) {
    match req
    case Publish(t) => GoodTarget(report, t) && t.advertisement.Some? && now < t.advertisement.value.expiresAt <= now + 900_000_000_000
    case Drain(_, generation) => generation >= 1 && Rankable(now)
    case Sweep => true
  }

  lemma GoodRequestsAreValid(report: Report, req: Request, now: Instant)
    ensures ValidRequest(report, req, now) <==> GoodRequest(report, req, now)
  {
  }

  /** A live row that holds what its key names. */
  predicate Stands(report: Report, host: Text, row: Option<TargetRow>) {
    && row.Some? && !row.value.deleted && row.value.value.Readable?
    && var t := row.value.value.target;
    && GoodTarget(report, t) && t.hostID == host && row.value.rank == TargetRank(t) && row.value.due == TargetDue(t)
  }

  /** What each call decides on the row it read: a heartbeat creates the row or replaces
      one of no higher generation; a drain withdraws one of no higher generation, and finds
      one already withdrawn at its own; a sweep withdraws exactly what has expired. */
  lemma DecidedExactlyWhen(report: Report, host: Text, row: Option<TargetRow>, req: Request, now: Instant)
    ensures var d := Decide(report, host, row, req, now);
            && (d.Ok? && d.value.Create? <==> row.None? && req.Publish?)
            && (d.Ok? && d.value.Create? ==> d.value.t == req.target)
            && (row.Some? && !Stands(report, host, row) ==> d == Err(if row.value.deleted then Deleted else Identity))
            && (Stands(report, host, row) ==>
                  var current := row.value.value.target;
                  match req
                  case Publish(t) => d == if current.generation <= t.generation then Ok(Write(t)) else Err(Generation(current.generation))
                  case Drain(_, generation) =>
                    d == (if generation < current.generation then Err(Generation(current.generation))
                          else if current.advertisement.None? && current.generation == generation then Ok(Leave)
                          else Ok(Write(current.(generation := generation, observedAt := now, advertisement := None))))
                  case Sweep =>
                    && (d == Ok(Leave) <==> !ExpiredBy(current, now))
                    && (d == Ok(Write(current.(observedAt := now, advertisement := None))) <==> ExpiredBy(current, now) && Rankable(now))
                    && (d == Err(Invalid) <==> ExpiredBy(current, now) && !Rankable(now)))
            && (row.None? && req.Drain? ==> d == Err(HostTargetError.NotFound))
  {
  }

  /** A write along the directory's one edge: the generation never falls, and only a
      row whose own expiry has passed is taken down by a sweep. */
  ghost predicate Edge(r: HostTarget, s: HostTarget, req: Request, now: Instant) {
    && s.hostID == r.hostID && r.generation <= s.generation
    && match req
       case Sweep => !r.Withdrawn() && r.advertisement.value.expiresAt <= now && s == Withdrawal(r, now)
       case Drain(_, generation) =>
         s == Withdrawal(r, now).(generation := generation) && (r.Withdrawn() ==> r.generation < generation)
       case Publish(t) => s == t
  }

  lemma WritesFollowEdges(report: Report, host: Text, row: TargetRow, req: Request, now: Instant)
    requires ValidRequest(report, req, now) && (req.Publish? ==> req.target.hostID == host)
    requires var d := Decide(report, host, Some(row), req, now); d.Ok? && d.value.Write?
    ensures var t := Decide(report, host, Some(row), req, now).value.t;
            && row.value.Readable? && ValidTarget(report, t) && t.hostID == host && Edge(row.value.target, t, req, now)
  {
  }

  // ---- one row, under every interleaving ------------------------------------------------

  datatype Stage = Started | HasRead(row: Option<TargetRow>)

  datatype Op = Op(request: Request, now: Instant, stage: Stage)

  datatype State = State(row: Option<TargetRow>, ops: map<nat, Op>)

  datatype Action = Start(id: nat, request: Request, now: Instant) | Read(id: nat) | Commit(id: nat, lands: bool) | Drop(id: nat)

  predicate Enabled(report: Report, host: Text, s: State, a: Action) {
    match a
    case Start(id, req, now) => id !in s.ops && ValidRequest(report, req, now) && (req.Publish? ==> req.target.hostID == host)
    case Read(id) => id in s.ops && s.ops[id].stage.Started?
    case Commit(id, _) => id in s.ops && s.ops[id].stage.HasRead?
    case Drop(id) => id in s.ops
  }

  function NewRow(t: HostTarget, revision: nat): TargetRow { Row(Readable(t), revision, TargetRank(t), TargetDue(t), 1, false) }

  /** The row one commit leaves, None when it writes nothing. */
  function Written(report: Report, host: Text, s: State, op: Op): Option<TargetRow>
    requires op.stage.HasRead?
  {
    var d := Decide(report, host, op.stage.row, op.request, op.now);
    if d.Err? || d.value.Leave? then None
    else if d.value.Create? then if s.row.None? then Some(NewRow(d.value.t, 1)) else None
    else if op.stage.row.Some? && s.row.Some? && s.row.value.revision == op.stage.row.value.revision
    then Some(NewRow(d.value.t, s.row.value.revision + 1)) else None
  }

  function Apply(report: Report, host: Text, s: State, a: Action): State
    requires Enabled(report, host, s, a)
  {
    match a
    case Start(id, req, now) => s.(ops := s.ops[id := Op(req, now, Started)])
    case Read(id) => s.(ops := s.ops[id := s.ops[id].(stage := HasRead(s.row))])
    case Commit(id, lands) =>
      var next := Written(report, host, s, s.ops[id]);
      State(if lands && next.Some? then next else s.row, s.ops - {id})
    case Drop(id) => s.(ops := s.ops - {id})
  }

  function After(report: Report, host: Text, run: seq<Action>): Option<State> {
    if run == [] then Some(State(None, map[]))
    else
      var before := After(report, host, run[..|run| - 1]);
      if before.Some? && Enabled(report, host, before.value, run[|run| - 1])
      then Some(Apply(report, host, before.value, run[|run| - 1])) else None
  }

  ghost predicate OpFresh(s: State, op: Op) {
    op.stage.HasRead? && op.stage.row.Some? ==>
      && s.row.Some? && op.stage.row.value.revision <= s.row.value.revision
      && (op.stage.row.value.revision == s.row.value.revision ==> op.stage.row == s.row)
  }

  ghost predicate Inv(report: Report, host: Text, s: State) {
    && (s.row.Some? ==> Filed(report, host, s.row.value))
    && forall id :: id in s.ops ==>
         && OpFresh(s, s.ops[id]) && ValidRequest(report, s.ops[id].request, s.ops[id].now)
         && (s.ops[id].request.Publish? ==> s.ops[id].request.target.hostID == host)
  }

  /** What one commit that lands did to the row it landed on. */
  lemma CommitFollowsEdge(report: Report, host: Text, s: State, op: Op)
    requires op.stage.HasRead? && Inv(report, host, s) && OpFresh(s, op) && ValidRequest(report, op.request, op.now)
    requires op.request.Publish? ==> op.request.target.hostID == host
    requires Written(report, host, s, op).Some?
    ensures var next := Written(report, host, s, op).value;
            && Filed(report, host, next)
            && (s.row.Some? ==>
                  && next.revision == s.row.value.revision + 1
                  && Edge(s.row.value.value.target, next.value.target, op.request, op.now))
            && (s.row.None? ==> op.request.Publish?)
  {
    if op.stage.row.Some? { WritesFollowEdges(report, host, op.stage.row.value, op.request, op.now); }
  }

  lemma InvStep(report: Report, host: Text, s: State, a: Action)
    requires Inv(report, host, s) && Enabled(report, host, s, a)
    ensures Inv(report, host, Apply(report, host, s, a))
  {
    if a.Commit? && Written(report, host, s, s.ops[a.id]).Some? { CommitFollowsEdge(report, host, s, s.ops[a.id]); }
  }

  lemma {:induction false} EveryRunKeepsInv(report: Report, host: Text, run: seq<Action>)
    requires After(report, host, run).Some?
    ensures Inv(report, host, After(report, host, run).value)
  {
    if run != [] {
      EveryRunKeepsInv(report, host, run[..|run| - 1]);
      InvStep(report, host, After(report, host, run[..|run| - 1]).value, run[|run| - 1]);
    }
  }

  /** In every run: no sweep takes down a row whose stored expiry, at the very write,
      is after the sweep's own clock reading. */
  lemma SweepsSpareLiveHosts(report: Report, host: Text, run: seq<Action>, id: nat)
    requires After(report, host, run).Some? && Enabled(report, host, After(report, host, run).value, Commit(id, true))
    requires After(report, host, run).value.ops[id].request.Sweep?
    requires Written(report, host, After(report, host, run).value, After(report, host, run).value.ops[id]).Some?
    ensures var s := After(report, host, run).value;
            && s.row.Some? && s.row.value.value.Readable? && !s.row.value.value.target.Withdrawn()
            && s.row.value.value.target.advertisement.value.expiresAt <= s.ops[id].now
            && Written(report, host, s, s.ops[id]).value.value.target == Withdrawal(s.row.value.value.target, s.ops[id].now)
  {
    EveryRunKeepsInv(report, host, run);
    CommitFollowsEdge(report, host, After(report, host, run).value, After(report, host, run).value.ops[id]);
  }

  /** In every run the generation mark never falls, and the stored row's rank and due
      are exactly its record's. */
  lemma {:induction false} GenerationsOnlyRise(report: Report, host: Text, run: seq<Action>, n: nat)
    requires n <= |run| && After(report, host, run).Some?
    ensures After(report, host, run[..n]).Some?
    ensures var s, t := After(report, host, run[..n]).value, After(report, host, run).value;
            && (t.row.Some? ==> Filed(report, host, t.row.value))
            && (s.row.Some? ==>
                  && t.row.Some? && s.row.value.value.Readable? && t.row.value.value.Readable?
                  && s.row.value.value.target.generation <= t.row.value.value.target.generation)
    decreases |run|
  {
    EveryRunKeepsInv(report, host, run);
    if n == |run| {
      assert run[..n] == run;
    } else {
      var front := run[..|run| - 1];
      assert front[..n] == run[..n];
      GenerationsOnlyRise(report, host, front, n);
      EveryRunKeepsInv(report, host, front);
      var s, a := After(report, host, front).value, run[|run| - 1];
      if a.Commit? && Written(report, host, s, s.ops[a.id]).Some? { CommitFollowsEdge(report, host, s, s.ops[a.id]); }
    }
  }

  // ---- the store's own calls -----------------------------------------------------------------

  /** Publish and drain over the ordered index. `seen` is the call's own earlier read,
      which another writer may have overtaken. */
  class HostDirectory {
    const report: Report
    const index: OrderedIndex<Value>

    ghost predicate Seen(host: Text, seen: Option<TargetRow>)
      reads index
    {
      seen.Some? ==>
        && host in index.rows && seen.value.revision <= index.rows[host].revision
        && (seen.value.revision == index.rows[host].revision ==> seen.value == index.rows[host])
    }

    constructor (report: Report)
      ensures fresh(index) && index.rows == map[] && this.report == report
    {
      this.report := report;
      index := new OrderedIndex<Value>();
    }

    /** The write a decision asks for: created once, or onto the revision read. */
    method Carry(host: Text, seen: Option<TargetRow>, d: Decision) returns (r: Result<Value, HostTargetError>)
      requires Seen(host, seen) && (d.Create? ==> seen.None?) && (!d.Create? ==> seen.Some?)
      modifies index
      ensures forall k :: k in old(index.rows) && k != host ==> k in index.rows && index.rows[k] == old(index.rows)[k]
      ensures r.Err? || d.Leave? ==> index.rows == old(index.rows)
      ensures r.Ok? && !d.Leave? ==>
                && host in index.rows && r.value == Readable(d.t) == index.rows[host].value && !index.rows[host].deleted
                && index.rows[host].rank == TargetRank(d.t) && index.rows[host].due == TargetDue(d.t)
                && (d.Write? ==> host in old(index.rows) && old(index.rows)[host] == seen.value)
                && (d.Create? ==> host !in old(index.rows))
      ensures d.Create? ==> (r.Ok? <==> host !in old(index.rows))
      ensures d.Write? && !seen.value.deleted ==> (r.Ok? <==> old(index.rows)[host] == seen.value)
    {
      match d
      case Leave => r := Ok(seen.value.value);
      case Create(t) =>
        var row, created := index.Create(host, Readable(t), TargetRank(t), TargetDue(t));
        r := if created then Ok(Readable(t)) else Err(Conflict(row.revision));
      case Write(t) =>
        var stored := index.Update(host, seen.value.revision, Readable(t), TargetRank(t), TargetDue(t));
        match stored {
          case Ok(row) => r := Ok(row.value);
          case Err(RevisionConflict(actual)) => r := Err(Conflict(actual));
          case Err(_) => r := Err(Deleted);
        }
    }

    /** A heartbeat: success leaves exactly this target, at or above the generation it
        replaced, filed by its own rank and due; every refusal leaves the row alone. */
    method PublishHostTarget(t: HostTarget, now: Instant, seen: Option<TargetRow>) returns (r: Result<Value, HostTargetError>)
      requires Seen(t.hostID, seen)
      modifies index
      ensures forall k :: k in old(index.rows) && k != t.hostID ==> k in index.rows && index.rows[k] == old(index.rows)[k]
      ensures r.Err? ==> index.rows == old(index.rows)
      ensures r.Ok? ==>
                && ValidRequest(report, Publish(t), now) && t.hostID in index.rows && Filed(report, t.hostID, index.rows[t.hostID])
                && index.rows[t.hostID].value == Readable(t)
                && (t.hostID in old(index.rows) ==>
                      old(index.rows)[t.hostID].value.Readable? && old(index.rows)[t.hostID].value.target.generation <= t.generation)
      ensures !GoodRequest(report, Publish(t), now) ==> r == Err(Invalid)
      ensures GoodRequest(report, Publish(t), now) && Decide(report, t.hostID, seen, Publish(t), now).Err? ==>
                r == Err(Decide(report, t.hostID, seen, Publish(t), now).error)
      ensures r.Ok? <==>
                && GoodRequest(report, Publish(t), now)
                && (if seen.None? then t.hostID !in old(index.rows)
                    else && Stands(report, t.hostID, seen) && seen.value.value.target.generation <= t.generation
                         && old(index.rows)[t.hostID] == seen.value)
    {
      GoodRequestsAreValid(report, Publish(t), now);
      if !ValidRequest(report, Publish(t), now) {
        return Err(Invalid);
      }
      if seen.None? {
        r := Carry(t.hostID, seen, Create(t));
        return;
      }
      if seen.value.deleted {
        return Err(Deleted);
      }
      if !Filed(report, t.hostID, seen.value) {
        return Err(Identity);
      }
      if t.generation < seen.value.value.target.generation {
        return Err(Generation(seen.value.value.target.generation));
      }
      r := Carry(t.hostID, seen, Write(t));
    }

    /** A drain: success leaves the Host withdrawn at this generation, whether this
        call or an earlier one of the same generation did it. */
    method DrainHostTarget(host: Text, generation: uint64, now: Instant, seen: Option<TargetRow>) returns (r: Result<Value, HostTargetError>)
      requires Seen(host, seen)
      modifies index
      ensures forall k :: k in old(index.rows) && k != host ==> k in index.rows && index.rows[k] == old(index.rows)[k]
      ensures r.Err? ==> index.rows == old(index.rows)
      ensures r.Ok? ==>
                && r.value.Readable? && r.value.target.Withdrawn() && r.value.target.generation == generation
                && host in index.rows && (index.rows == old(index.rows) || index.rows[host].value == r.value)
      ensures index.rows != old(index.rows) ==>
                && host in old(index.rows) && old(index.rows)[host].value.Readable?
                && old(index.rows)[host].value.target.generation <= generation
                && index.rows[host].value == Readable(Withdrawal(old(index.rows)[host].value.target, now).(generation := generation))
      ensures seen.None? && GoodRequest(report, Drain(host, generation), now) ==> r == Err(HostTargetError.NotFound)
      ensures r.Ok? <==>
                && GoodRequest(report, Drain(host, generation), now) && Stands(report, host, seen)
                && seen.value.value.target.generation <= generation
                && (old(index.rows)[host] == seen.value
                    || (seen.value.value.target.advertisement.None? && seen.value.value.target.generation == generation))
    {
      GoodRequestsAreValid(report, Drain(host, generation), now);
      if !ValidRequest(report, Drain(host, generation), now) {
        return Err(Invalid);
      }
      if seen.None? {
        return Err(HostTargetError.NotFound);
      }
      if seen.value.deleted {
        return Err(Deleted);
      }
      if !Filed(report, host, seen.value) {
        return Err(Identity);
      }
      var current := seen.value.value.target;
      if generation < current.generation {
        return Err(Generation(current.generation));
      }
      if current.Withdrawn() && current.generation == generation {
        return Ok(Readable(current));
      }
      r := Carry(host, seen, Write(HostTarget(current.key, host, generation, now, None)));
    }
  }
}
