/** The writer a lease grant hands its holder: its own tracked sequence, a latched
    failure and a closed flag, over a ledger other grants append to as well. Each
    call is one step of the machine in JournalOwnership. */
module JournalWriters {
  import opened Wrappers
  import opened Bytes
  import opened Envelopes
  import opened EnvelopeCodec
  import J = JournalOwnership

  datatype WriterError = Closed | InvalidRecord | BodyTooLarge | LeaseLost | Fenced | Unknown | BackendFailure | NotEncodable(error: EnvelopeError)

  /** Ownership is over: nothing may be appended after one of these. */
  predicate Latches(e: WriterError) { e.Fenced? || e.Unknown? || e.LeaseLost? }

  function ClassifyAppend(outcome: J.AppendOutcome): Option<WriterError> {
    match outcome
    case Landed => None
    case Conflict => Some(Fenced)
    case Ambiguous => Some(Unknown)
    case Failed => Some(BackendFailure)
  }

  /** The stream of one session. `machine` is the ghost history of which grant
      wrote what; the provider stores only frames. */
  class Ledger {
    const codec: Codec
    const rules: CoreRules
    var frames: seq<seq<byte>>
    ghost var machine: J.State

    ghost predicate Valid() reads this {
      && codec.Conforms() && J.Inv(machine)
      && |frames| == |machine.records|
      && forall i :: 0 <= i < |frames| ==> codec.decode(frames[i]) == Some(machine.records[i])
    }

    constructor (rules: CoreRules)
      requires BoundsIdentities(rules)
      ensures Valid() && this.rules == rules && codec == EnvelopeV1(rules) && frames == [] && machine == J.INITIAL
    {
      EnvelopeV1Conforms(rules);
      this.rules, codec, frames, machine := rules, EnvelopeV1(rules), [], J.INITIAL;
    }

    /** A grant is issued above every earlier one. */
    ghost method Acquire(epoch: J.Epoch)
      requires Valid() && epoch > machine.issued
      modifies this`machine
      ensures Valid() && machine == J.Apply(old(machine), J.Acquire(epoch))
    {
      J.InvStep(machine, J.Acquire(epoch));
      machine := J.Apply(machine, J.Acquire(epoch));
    }

    method ReadTip(epoch: J.Epoch) returns (tip: nat)
      requires Valid() && J.Enabled(machine, J.ReadTip(epoch))
      modifies this`machine
      ensures Valid() && machine == J.Apply(old(machine), J.ReadTip(epoch)) && tip == |frames|
    {
      J.InvStep(machine, J.ReadTip(epoch));
      machine := J.Apply(machine, J.ReadTip(epoch));
      tip := |frames|;
    }

    /** One compare-and-swap append at an expected tip, and what the caller learns. */
    method AppendDefinite(expected: nat, frame: seq<byte>, fate: J.Fate, ghost step: J.Action) returns (outcome: J.AppendOutcome)
      requires Valid() && J.Enabled(machine, step)
      requires match step
               case Fence(e, f) => f == fate && machine.writers[e].tip == expected && codec.decode(frame) == Some(OpeningFence(e))
               case Append(e, env, f) => f == fate && machine.writers[e].tracked == expected && codec.decode(frame) == Some(env)
               case _ => false
      modifies this
      ensures Valid() && machine == J.Apply(old(machine), step)
      ensures outcome == J.OutcomeOf(|old(frames)|, expected, fate)
      ensures frames == if J.Lands(|old(frames)|, expected, fate) then old(frames) + [frame] else old(frames)
    {
      J.InvStep(machine, step);
      machine := J.Apply(machine, step);
      outcome := J.OutcomeOf(|frames|, expected, fate);
      if J.Lands(|frames|, expected, fate) {
        frames := frames + [frame];
      }
    }
  }

  /** The record as the writer will offer it: never a caller's fence, and a
      command-carrying kind under the writer's own grant. */
  function Stamped(env: Envelope, epoch: J.Epoch): Result<Envelope, WriterError> {
    if env.IsFence() then Err(InvalidRecord)
    else if env.IsPrefix() || env.IsDisposition() then
      if env.leaseEpoch != 0 then Err(InvalidRecord) else Ok(env.(leaseEpoch := epoch))
    else Ok(env)
  }

  /** A public body is held to the canonical rule and the inline ceiling before
      anything may be uploaded. */
  function PublicBodyRefusal(rules: CoreRules, env: Envelope): Option<WriterError> {
    if !env.IsPublicEvent() || env.public.inline.None? then None
    else if !rules.validEventBody(env.eventID, env.public.inline.value) then Some(NotEncodable(InvalidError))
    else if |env.public.inline.value| > MAX_INLINE_BODY_BYTES then Some(BodyTooLarge)
    else None
  }

  /** Uploading an over-threshold body is not part of this model: `offload` is
      whatever it leaves in the slot, or its failure. */
  type Offload = BodySlot -> Result<BodySlot, WriterError>

  function Offloaded(offload: Offload, env: Envelope): Result<Envelope, WriterError> {
    var public := offload(env.public);
    if public.Err? then Err(public.error)
    else
      var runtime := offload(env.runtime);
      if runtime.Err? then Err(runtime.error) else Ok(env.(public := public.value, runtime := runtime.value))
  }

  /** The frame one append offers, or why it offers none. */
  function Offered(rules: CoreRules, codec: Codec, env: Envelope, epoch: J.Epoch, held: bool, offload: Offload)
    : (r: Result<(Envelope, seq<byte>), WriterError>)
  {
    var stamped := Stamped(env, epoch);
    if stamped.Err? then Err(stamped.error)
    else if PublicBodyRefusal(rules, stamped.value).Some? then Err(PublicBodyRefusal(rules, stamped.value).value)
    else if !held then Err(LeaseLost)
    else
      var ready := Offloaded(offload, stamped.value);
      if ready.Err? then Err(ready.error)
      else
        var frame := codec.encode(ready.value);
        if frame.Err? then Err(NotEncodable(frame.error)) else Ok((ready.value, frame.value))
  }

  lemma OfferedIsStamped(rules: CoreRules, codec: Codec, env: Envelope, epoch: J.Epoch, held: bool, offload: Offload)
    requires codec.Conforms() && Offered(rules, codec, env, epoch, held, offload).Ok?
    ensures var (ready, frame) := Offered(rules, codec, env, epoch, held, offload).value;
            J.StampedBy(ready, epoch) && codec.decode(frame) == Some(ready)
  {
  }

  // ---- when a record is offered ---------------------------------------------------------

  predicate CarriesCommand(env: Envelope) { env.kind == KIND_APPLICATION_PREFIX || env.kind == KIND_COMMAND_DISPOSITION }

  /** A record a caller may hand a writer: no fence, and no epoch of its own on a record
      whose epoch the writer sets. */
  predicate MayStamp(env: Envelope) { env.kind != KIND_OPENING_FENCE && (CarriesCommand(env) ==> env.leaseEpoch == 0) }

  /** An inline public body is canonical and small enough to stay inline. */
  predicate BodyInRule(rules: CoreRules, env: Envelope) {
    env.kind == KIND_PUBLIC_EVENT && env.public.inline.Some? ==>
      rules.validEventBody(env.eventID, env.public.inline.value) && |env.public.inline.value| <= 0x8_0000
  }

  /** The record as it goes into the journal: the caller's, under the writer's epoch where
      it carries a command, with what the upload left in each body's place. */
  predicate ReadyFrom(env: Envelope, epoch: J.Epoch, offload: Offload, ready: Envelope) {
    && offload(env.public) == Ok(ready.public) && offload(env.runtime) == Ok(ready.runtime)
    && ready.leaseEpoch == (if CarriesCommand(env) then epoch else env.leaseEpoch)
    && ready.(public := env.public, runtime := env.runtime, leaseEpoch := env.leaseEpoch) == env
  }

  /** A record is offered exactly when it may be stamped, its body is within the rule, the
      lease is held, both bodies are in place and the frame encodes; and it is that very
      record and that very frame. A lease that is gone is what refuses an otherwise good
      record, before anything is uploaded. */
  lemma OfferedExactlyWhen(rules: CoreRules, codec: Codec, env: Envelope, epoch: J.Epoch, held: bool, offload: Offload,
                           ready: Envelope, frame: seq<byte>)
    ensures var offered := Offered(rules, codec, env, epoch, held, offload);
            && (offered == Ok((ready, frame)) <==>
                  && MayStamp(env) && BodyInRule(rules, env) && held && ReadyFrom(env, epoch, offload, ready)
                  && codec.encode(ready) == Ok(frame))
            && (!MayStamp(env) ==> offered == Err(InvalidRecord))
            && (MayStamp(env) && !BodyInRule(rules, env) ==>
                  offered == Err(if rules.validEventBody(env.eventID, env.public.inline.value) then BodyTooLarge
                                 else NotEncodable(InvalidError)))
            && (MayStamp(env) && BodyInRule(rules, env) && !held ==> offered == Err(LeaseLost))
            && (MayStamp(env) && BodyInRule(rules, env) && held && offload(env.public).Err? ==>
                  offered == Err(offload(env.public).error))
            && (MayStamp(env) && BodyInRule(rules, env) && held && offload(env.public).Ok? && offload(env.runtime).Err? ==>
                  offered == Err(offload(env.runtime).error))
            && (MayStamp(env) && BodyInRule(rules, env) && held && ReadyFrom(env, epoch, offload, ready) && codec.encode(ready).Err? ==>
                  offered == Err(NotEncodable(codec.encode(ready).error)))
  {
  }

  class JournalWriter {
    const ledger: Ledger
    const epoch: J.Epoch
    var tracked: nat
    var failure: Option<WriterError>
    var closed: bool

    predicate Live() reads this { failure.None? && !closed }

    /** A live writer owns its grant's block at exactly its tracked sequence,
        whatever other grants have done to the ledger meanwhile. */
    ghost predicate Valid() reads this, ledger {
      && ledger.Valid() && epoch in ledger.machine.writers
      && (Live() ==> ledger.machine.writers[epoch] == J.Owning(tracked))
      && (failure.Some? ==> Latches(failure.value))
    }

    constructor (ledger: Ledger, epoch: J.Epoch, tracked: nat)
      requires ledger.Valid() && epoch in ledger.machine.writers && ledger.machine.writers[epoch] == J.Owning(tracked)
      ensures Valid() && Live() && this.ledger == ledger && this.epoch == epoch && this.tracked == tracked
    {
      this.ledger, this.epoch, this.tracked, failure, closed := ledger, epoch, tracked, None, false;
    }

    method Latch(e: WriterError) returns (r: WriterError)
      modifies this`failure
      ensures r == e && failure == if Latches(e) then Some(e) else old(failure)
    {
      if Latches(e) {
        failure := Some(e);
      }
      r := e;
    }

    /** An offered record goes in exactly when the ledger ends where the writer left it and
        the provider answers; a ledger that has moved fences the writer, and a lost answer
        leaves it not knowing. */
    predicate AppendAnswer(before: seq<seq<byte>>, at: nat, ready: Envelope, frame: seq<byte>, fate: J.Fate, r: Result<nat, WriterError>)
      reads this, ledger
    {
      match fate
      case FailedDefinitely => r == Err(BackendFailure) && ledger.frames == before && Live() && tracked == at
      case AckLost(landed) =>
        r == Err(Unknown) && failure == Some(Unknown) && ledger.frames == if landed && |before| == at then before + [frame] else before
      case Answered =>
        if |before| == at then
          r == Ok(at + 1) && Live() && tracked == at + 1 && ledger.frames == before + [frame] && ledger.codec.decode(frame) == Some(ready)
        else r == Err(Fenced) && failure == Some(Fenced) && ledger.frames == before
    }

    /** Commits one record and returns its journal sequence. */
    method Append(env: Envelope, held: bool, offload: Offload, fate: J.Fate) returns (r: Result<nat, WriterError>)
      requires Valid()
      modifies this, ledger
      ensures Valid() && closed == old(closed)
      ensures old(closed) ==> r == Err(Closed)
      ensures !old(closed) && old(failure).Some? ==> r == Err(old(failure).value)
      ensures r.Err? && Latches(r.error) && !old(closed) ==> failure == Some(r.error)
      ensures !held ==> r.Err? && ledger.frames == old(ledger.frames) && ledger.machine == old(ledger.machine)
      ensures old(Live()) && !MayStamp(env) ==> r == Err(InvalidRecord) && failure.None?
      ensures old(Live()) && MayStamp(env) && BodyInRule(ledger.rules, env) && !held ==> r == Err(LeaseLost) && failure == Some(LeaseLost)
      ensures forall ready, frame ::
                old(Live()) && MayStamp(env) && BodyInRule(ledger.rules, env) && held && ReadyFrom(env, epoch, offload, ready)
                && ledger.codec.encode(ready) == Ok(frame) ==>
                  AppendAnswer(old(ledger.frames), old(tracked), ready, frame, fate, r)
      ensures r.Err? && !Latches(r.error) ==>
                failure == old(failure) && tracked == old(tracked) && ledger.frames == old(ledger.frames) &&
                ledger.machine.records == old(ledger.machine.records)
      ensures r.Ok? ==>
                var offered := Offered(ledger.rules, ledger.codec, env, epoch, held, offload);
                && offered.Ok? && ledger.frames == old(ledger.frames) + [offered.value.1]
                && r.value == |ledger.frames| == tracked == old(tracked) + 1
                && ledger.codec.decode(ledger.frames[r.value - 1]) == Some(offered.value.0)
      ensures var offered := Offered(ledger.rules, ledger.codec, env, epoch, held, offload);
              if !old(Live()) then ledger.machine == old(ledger.machine)
              else if offered.Ok? then
                && ledger.machine == J.Apply(old(ledger.machine), J.Append(epoch, offered.value.0, fate))
                && r == (match ClassifyAppend(J.OutcomeOf(|old(ledger.frames)|, old(tracked), fate))
                         case Some(e) => Err(e)
                         case None => Ok(old(tracked) + 1))
              else r == Err(offered.error) && ledger.machine == old(ledger.machine)
    {
      if closed {
        return Err(Closed);
      }
      if failure.Some? {
        return Err(failure.value);
      }
      var offered := Offered(ledger.rules, ledger.codec, env, epoch, held, offload);
      forall ready, frame
        ensures var good := MayStamp(env) && BodyInRule(ledger.rules, env) && held && ReadyFrom(env, epoch, offload, ready)
                            && ledger.codec.encode(ready) == Ok(frame);
                offered == Ok((ready, frame)) <==> good
      {
        OfferedExactlyWhen(ledger.rules, ledger.codec, env, epoch, held, offload, ready, frame);
      }
      OfferedExactlyWhen(ledger.rules, ledger.codec, env, epoch, held, offload, env, []);
      if offered.Err? {
        var e := Latch(offered.error);
        return Err(e);
      }
      OfferedIsStamped(ledger.rules, ledger.codec, env, epoch, held, offload);
      r := Offer(offered.value.0, offered.value.1, fate);
    }

    /** The append itself, on the writer's own tracked sequence. */
    method Offer(env: Envelope, frame: seq<byte>, fate: J.Fate) returns (r: Result<nat, WriterError>)
      requires Valid() && Live() && J.StampedBy(env, epoch) && ledger.codec.decode(frame) == Some(env)
      modifies this, ledger
      ensures Valid() && closed == old(closed)
      ensures ledger.machine == J.Apply(old(ledger.machine), J.Append(epoch, env, fate))
      ensures r == (match ClassifyAppend(J.OutcomeOf(|old(ledger.frames)|, old(tracked), fate))
                    case Some(e) => Err(e)
                    case None => Ok(old(tracked) + 1))
      ensures r.Err? ==> failure == if Latches(r.error) then Some(r.error) else None
      ensures AppendAnswer(old(ledger.frames), old(tracked), env, frame, fate, r)
      ensures r.Ok? ==> ledger.frames == old(ledger.frames) + [frame] && r.value == |ledger.frames| == tracked
    {
      var outcome := ledger.AppendDefinite(tracked, frame, fate, J.Append(epoch, env, fate));
      var refused := ClassifyAppend(outcome);
      if refused.Some? {
        var e := Latch(refused.value);
        return Err(e);
      }
      tracked := tracked + 1;
      r := Ok(tracked);
    }

    /** Idempotent; refuses every later append and gives the grant up. */
    method Close()
      requires Valid()
      modifies this, ledger`machine
      ensures Valid() && closed && tracked == old(tracked)
      ensures ledger.machine == if old(closed) then old(ledger.machine) else J.Apply(old(ledger.machine), J.Finish(epoch))
    {
      if closed {
        return;
      }
      closed := true;
      J.InvStep(ledger.machine, J.Finish(epoch));
      ledger.machine := J.Apply(ledger.machine, J.Finish(epoch));
    }
  }

  /** The second half of an open: the opening fence, appended at the tip its own
      read returned. Anything may have happened to the ledger in between. */
  method OpenJournal(ledger: Ledger, epoch: J.Epoch, tip: nat, fate: J.Fate) returns (r: Result<JournalWriter, WriterError>)
    requires ledger.Valid() && epoch in ledger.machine.writers && ledger.machine.writers[epoch] == J.TipTaken(tip)
    modifies ledger
    ensures ledger.Valid()
    ensures epoch == 0 ==> r.Err? && ledger.machine == old(ledger.machine)
    ensures epoch != 0 ==> ledger.machine == J.Apply(old(ledger.machine), J.Fence(epoch, fate))
    ensures r.Ok? ==>
              && epoch != 0 && fresh(r.value) && r.value.Valid() && r.value.Live() && r.value.ledger == ledger && r.value.epoch == epoch
              && |ledger.frames| == tip + 1 == r.value.tracked
              && ledger.codec.decode(ledger.frames[tip]) == Some(OpeningFence(epoch))
    ensures r.Ok? <==> epoch != 0 && fate.Answered? && |old(ledger.frames)| == tip
    ensures r == Err(Fenced) <==> epoch != 0 && fate.Answered? && |old(ledger.frames)| != tip
    ensures r == Err(Unknown) <==> epoch != 0 && fate.AckLost?
  {
    var frame := ledger.codec.encode(OpeningFence(epoch));
    if frame.Err? {
      return Err(NotEncodable(frame.error));
    }
    var outcome := ledger.AppendDefinite(tip, frame.value, fate, J.Fence(epoch, fate));
    var refused := ClassifyAppend(outcome);
    if refused.Some? {
      return Err(refused.value);
    }
    var writer := new JournalWriter(ledger, epoch, tip + 1);
    r := Ok(writer);
  }

  /** Another grant's step leaves a live writer's own block where it was. */
  lemma OthersLeaveTheWriterItsBlock(s: J.State, a: J.Action, epoch: J.Epoch, tracked: nat)
    requires J.Inv(s) && J.Enabled(s, a) && a.e != epoch
    requires epoch in s.writers && s.writers[epoch] == J.Owning(tracked)
    ensures var t := J.Apply(s, a);
            && J.Inv(t) && t.writers[epoch] == J.Owning(tracked)
            && t.records[..tracked] == s.records[..tracked] && t.authors[tracked - 1] == epoch
            && epoch !in t.authors[tracked..]
  {
    J.InvStep(s, a);
    assert J.WriterPlaced(s, epoch) && J.WriterPlaced(J.Apply(s, a), epoch);
  }
}
