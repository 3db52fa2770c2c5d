/** The raw journal record: its closed set of kinds, the flat struct every
    writer and reader shares, and the one validator both directions of the codec
    end in. Core's own `Validate` methods and the UTF-8 test are not part of this
    model; they are the function-valued members of `CoreRules`. */
module Envelopes {
  import opened Wrappers
  import opened Bytes

  const MAX_ENVELOPE_BYTES: nat := 0x10_0000
  const MAX_INLINE_BODY_BYTES: nat := 0x8_0000
  const MAX_ID_BYTES: nat := 256

  const KIND_PUBLIC_EVENT: byte := 1
  const KIND_RUNTIME_CONTROL: byte := 2
  const KIND_OPENING_FENCE: byte := 3
  const KIND_APPLICATION_PREFIX: byte := 4
  const KIND_COMMAND_DISPOSITION: byte := 5

  /** What this package asks of Core: whether an identity, an object reference
      and a public event body are valid, and whether bytes are valid UTF-8. */
  datatype CoreRules = CoreRules(
    validID: Text -> bool,
    validObjectID: Text -> bool,
    validEventBody: (Text, seq<byte>) -> bool,
    validUtf8: Text -> bool)

  /** Core bounds every identity it accepts by MaxIDBytes. */
  ghost predicate BoundsIdentities(rules: CoreRules) {
    && (forall id: Text :: rules.validID(id) ==> |id| <= MAX_ID_BYTES)
    && (forall id: Text :: rules.validObjectID(id) ==> |id| <= MAX_ID_BYTES)
  }

  datatype BodyReference = BodyReference(objectID: Text, sizeBytes: uint64, sha256: Digest32)

  /** A nil Inline is absent; a present one may be empty. */
  datatype BodySlot = BodySlot(inline: Option<seq<byte>>, reference: Option<BodyReference>) {
    predicate Present() { inline.Some? || reference.Some? }
  }

  const NO_BODY := BodySlot(None, None)

  datatype Envelope = Envelope(
    kind: byte,
    eventID: Text,
    recordID: Text,
    public: BodySlot,
    runtime: BodySlot,
    leaseEpoch: uint64,
    commandID: Text,
    runtimeCommandID: Uuid16,
    commandKind: Text,
    attemptID: Text,
    attemptJournalEpoch: uint64,
    dispositionKind: Text)
  {
    predicate IsFence() { kind == KIND_OPENING_FENCE }
    predicate IsPrefix() { kind == KIND_APPLICATION_PREFIX }
    predicate IsPublicEvent() { kind == KIND_PUBLIC_EVENT }
    predicate IsDisposition() { kind == KIND_COMMAND_DISPOSITION }
  }

  /** An envelope of one kind with every other member at its zero value. */
  function Blank(kind: byte): Envelope {
    Envelope(kind, [], [], NO_BODY, NO_BODY, 0, [], ZeroUuid(), [], [], 0, [])
  }

  function OpeningFence(epoch: uint64): Envelope {
    Blank(KIND_OPENING_FENCE).(leaseEpoch := epoch)
  }

  datatype EnvelopeError =
    KindError | MissingError | InvalidError | FieldError | TooLargeError | DigestError |
    LengthError | MalformedError | VersionError | TrailingError | OrderError

  predicate KnownKind(kind: byte) { KIND_PUBLIC_EVENT <= kind <= KIND_COMMAND_DISPOSITION }

  function AppliedKind(): Text { Ascii("applied") }
  function NoOpKind(): Text { Ascii("no_op") }
  function RefusedKind(): Text { Ascii("refused") }
  function NotAppliedKind(): Text { Ascii("not_applied") }

  predicate ValidDispositionKind(kind: Text) {
    kind == AppliedKind() || kind == NoOpKind() || kind == RefusedKind() || kind == NotAppliedKind()
  }

  function ValidateSlot(rules: CoreRules, slot: BodySlot): Option<EnvelopeError> {
    if slot.inline.Some? && slot.reference.Some? then Some(FieldError)
    else if slot.inline.Some? && |slot.inline.value| > MAX_INLINE_BODY_BYTES then Some(TooLargeError)
    else if slot.reference.Some? && !rules.validObjectID(slot.reference.value.objectID) then Some(InvalidError)
    else if slot.reference.Some? && slot.reference.value.sha256 == ZeroDigest() then Some(DigestError)
    else None
  }

  function ValidatePublicBody(rules: CoreRules, eventID: Text, body: Option<seq<byte>>): Option<EnvelopeError> {
    if body.Some? && !rules.validEventBody(eventID, body.value) then Some(InvalidError) else None
  }

  /** The correlation quartet both command-carrying kinds require. */
  function ValidateCommandCorrelation(rules: CoreRules, env: Envelope): Option<EnvelopeError> {
    if env.commandID == [] then Some(MissingError)
    else if !rules.validID(env.commandID) then Some(InvalidError)
    else if env.runtimeCommandID == ZeroUuid() then Some(InvalidError)
    else if env.leaseEpoch == 0 then Some(InvalidError)
    else if env.commandKind == [] then Some(MissingError)
    else if |env.commandKind| > 64 || !rules.validUtf8(env.commandKind) then Some(InvalidError)
    else None
  }

  predicate NoCommandMembers(env: Envelope) {
    env.commandID == [] && env.runtimeCommandID == ZeroUuid() && env.commandKind == []
  }

  predicate NoAttemptMembers(env: Envelope) {
    env.attemptID == [] && env.attemptJournalEpoch == 0 && env.dispositionKind == []
  }

  predicate Bodiless(env: Envelope) {
    env.eventID == [] && env.recordID == [] && !env.public.Present() && !env.runtime.Present()
  }

  function ValidateShape(rules: CoreRules, env: Envelope): Option<EnvelopeError> {
    if env.kind == KIND_PUBLIC_EVENT then
      if env.eventID == [] then Some(MissingError)
      else if !rules.validID(env.eventID) then Some(InvalidError)
      else if !env.public.Present() then Some(MissingError)
      else if ValidatePublicBody(rules, env.eventID, env.public.inline).Some? then Some(InvalidError)
      else if env.recordID != [] || env.leaseEpoch != 0 || !NoCommandMembers(env) || !NoAttemptMembers(env)
      then Some(FieldError)
      else None
    else if env.kind == KIND_RUNTIME_CONTROL then
      if env.recordID == [] then Some(MissingError)
      else if |env.recordID| > MAX_ID_BYTES || !rules.validUtf8(env.recordID) then Some(InvalidError)
      else if !env.runtime.Present() then Some(MissingError)
      else if env.public.Present() || env.eventID != [] || env.leaseEpoch != 0 ||
              !NoCommandMembers(env) || !NoAttemptMembers(env)
      then Some(FieldError)
      else None
    else if env.kind == KIND_OPENING_FENCE then
      if env.leaseEpoch == 0 then Some(InvalidError)
      else if !Bodiless(env) || !NoCommandMembers(env) || !NoAttemptMembers(env) then Some(FieldError)
      else None
    else if env.kind == KIND_APPLICATION_PREFIX then
      FirstOf(
        ValidateCommandCorrelation(rules, env),
        if !Bodiless(env) || !NoAttemptMembers(env) then Some(FieldError) else None)
    else
      FirstOf(
        ValidateCommandCorrelation(rules, env),
        if env.attemptID == [] then Some(MissingError)
        else if |env.attemptID| > MAX_ID_BYTES || !rules.validUtf8(env.attemptID) then Some(InvalidError)
        else if env.attemptJournalEpoch == 0 then Some(InvalidError)
        else if env.dispositionKind == [] then Some(MissingError)
        else if !ValidDispositionKind(env.dispositionKind) then Some(InvalidError)
        else if !Bodiless(env) then Some(FieldError)
        else None)
  }

  /** None when the envelope is one this package will encode or hand to a reader,
      otherwise the first refusal. */
  function ValidateEnvelope(rules: CoreRules, env: Envelope): Option<EnvelopeError> {
    if !KnownKind(env.kind) then Some(KindError)
    else FirstOf(ValidateSlot(rules, env.public),
                 FirstOf(ValidateSlot(rules, env.runtime), ValidateShape(rules, env)))
  }
}
