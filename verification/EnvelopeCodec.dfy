/** The strict tag-length-value frame of one journal record. Encoding and decoding
    are inverse bijections between the valid envelopes that fit the bound and the
    frames a decoder accepts. */
module EnvelopeCodec {
  import opened Wrappers
  import opened Bytes
  import opened Envelopes

  const ENVELOPE_VERSION: byte := 1
  const HEADER_BYTES: nat := 12

  const TAG_IDENTITY: byte := 1
  const TAG_PUBLIC_INLINE: byte := 2
  const TAG_PUBLIC_REFERENCE: byte := 3
  const TAG_RUNTIME_INLINE: byte := 4
  const TAG_RUNTIME_REFERENCE: byte := 5
  const TAG_LEASE_EPOCH: byte := 6
  const TAG_RUNTIME_COMMAND_ID: byte := 7
  const TAG_COMMAND_KIND: byte := 8
  const TAG_ATTEMPT_ID: byte := 9
  const TAG_ATTEMPT_JOURNAL_EPOCH: byte := 10
  const TAG_DISPOSITION_KIND: byte := 11

  function Magic(): seq<byte> { Ascii("LRJE") }

  datatype EncodedField = EncodedField(tag: byte, value: seq<byte>)

  // ---- body references -----------------------------------------------------------

  const ALGORITHM_SHA256: byte := 1
  const REFERENCE_FIXED_BYTES: nat := 43

  function EncodeBodyReference(reference: BodyReference): seq<byte> {
    [ALGORITHM_SHA256] + BigEndian(|reference.objectID|, 2) + reference.objectID +
    BigEndian(reference.sizeBytes, 8) + reference.sha256
  }

  function DecodeBodyReference(rules: CoreRules, encoded: seq<byte>): Result<BodyReference, EnvelopeError> {
    if |encoded| < REFERENCE_FIXED_BYTES then Err(LengthError)
    else if encoded[0] != ALGORITHM_SHA256 then Err(DigestError)
    else
      var idBytes := FromBigEndian(encoded[1..3]);
      if idBytes > MAX_ID_BYTES || |encoded| != REFERENCE_FIXED_BYTES + idBytes then Err(LengthError)
      else
        var offset := 3 + idBytes;
        var size := FromBigEndian(encoded[offset..offset + 8]);
        FromBigEndianBound(encoded[offset..offset + 8]);
        WordSizes();
        var reference := BodyReference(encoded[3..offset], size, encoded[offset + 8..]);
        if !rules.validObjectID(reference.objectID) then Err(InvalidError)
        else if reference.sha256 == ZeroDigest() then Err(DigestError)
        else Ok(reference)
  }

  predicate ValidReference(rules: CoreRules, reference: BodyReference) {
    rules.validObjectID(reference.objectID) && reference.sha256 != ZeroDigest() && |reference.objectID| <= MAX_ID_BYTES
  }

  lemma ReferenceRoundTrip(rules: CoreRules, reference: BodyReference)
    requires ValidReference(rules, reference)
    ensures DecodeBodyReference(rules, EncodeBodyReference(reference)) == Ok(reference)
  {
    var encoded, n := EncodeBodyReference(reference), |reference.objectID|;
    WordSizes();
    BigEndianRoundTrip(n, 2);
    BigEndianRoundTrip(reference.sizeBytes, 8);
    assert encoded[1..3] == BigEndian(n, 2);
    assert encoded[3..3 + n] == reference.objectID;
    assert encoded[3 + n..3 + n + 8] == BigEndian(reference.sizeBytes, 8);
    assert encoded[3 + n + 8..] == reference.sha256;
  }

  lemma ReferenceIsCanonical(rules: CoreRules, encoded: seq<byte>)
    requires DecodeBodyReference(rules, encoded).Ok?
    ensures EncodeBodyReference(DecodeBodyReference(rules, encoded).value) == encoded
    ensures ValidReference(rules, DecodeBodyReference(rules, encoded).value)
  {
    var offset := 3 + FromBigEndian(encoded[1..3]);
    FromBigEndianRoundTrip(encoded[1..3]);
    FromBigEndianRoundTrip(encoded[offset..offset + 8]);
    assert encoded == [encoded[0]] + encoded[1..3] + encoded[3..offset] + encoded[offset..offset + 8] + encoded[offset + 8..];
  }

  // ---- fields --------------------------------------------------------------------

  function IdentityOf(env: Envelope): Text {
    if env.kind == KIND_PUBLIC_EVENT then env.eventID
    else if env.kind == KIND_RUNTIME_CONTROL then env.recordID
    else env.commandID
  }

  function AllowedFields(kind: byte): set<byte> {
    if kind == KIND_PUBLIC_EVENT then
      {TAG_IDENTITY, TAG_PUBLIC_INLINE, TAG_PUBLIC_REFERENCE, TAG_RUNTIME_INLINE, TAG_RUNTIME_REFERENCE}
    else if kind == KIND_RUNTIME_CONTROL then {TAG_IDENTITY, TAG_RUNTIME_INLINE, TAG_RUNTIME_REFERENCE}
    else if kind == KIND_OPENING_FENCE then {TAG_LEASE_EPOCH}
    else if kind == KIND_APPLICATION_PREFIX then {TAG_IDENTITY, TAG_LEASE_EPOCH, TAG_RUNTIME_COMMAND_ID, TAG_COMMAND_KIND}
    else if kind == KIND_COMMAND_DISPOSITION then
      {TAG_IDENTITY, TAG_LEASE_EPOCH, TAG_RUNTIME_COMMAND_ID, TAG_COMMAND_KIND,
       TAG_ATTEMPT_ID, TAG_ATTEMPT_JOURNAL_EPOCH, TAG_DISPOSITION_KIND}
    else {}
  }

  function ReferenceBytes(reference: Option<BodyReference>): Option<seq<byte>> {
    if reference.Some? then Some(EncodeBodyReference(reference.value)) else None
  }

  /** What one tag carries for this envelope, if its kind allows it at all. */
  function FieldValue(env: Envelope, tag: byte): Option<seq<byte>> {
    if tag !in AllowedFields(env.kind) then None
    else if tag == TAG_IDENTITY then Some(IdentityOf(env))
    else if tag == TAG_PUBLIC_INLINE then env.public.inline
    else if tag == TAG_PUBLIC_REFERENCE then ReferenceBytes(env.public.reference)
    else if tag == TAG_RUNTIME_INLINE then env.runtime.inline
    else if tag == TAG_RUNTIME_REFERENCE then ReferenceBytes(env.runtime.reference)
    else if tag == TAG_LEASE_EPOCH then Some(BigEndian(env.leaseEpoch, 8))
    else if tag == TAG_RUNTIME_COMMAND_ID then Some(env.runtimeCommandID)
    else if tag == TAG_COMMAND_KIND then Some(env.commandKind)
    else if tag == TAG_ATTEMPT_ID then Some(env.attemptID)
    else if tag == TAG_ATTEMPT_JOURNAL_EPOCH then Some(BigEndian(env.attemptJournalEpoch, 8))
    else Some(env.dispositionKind)
  }

  function SlotFields(slot: BodySlot, inlineTag: byte, referenceTag: byte): seq<EncodedField> {
    (if slot.inline.Some? then [EncodedField(inlineTag, slot.inline.value)] else []) +
    (if slot.reference.Some? then [EncodedField(referenceTag, EncodeBodyReference(slot.reference.value))] else [])
  }

  /** The fields of one envelope, as each kind lists them. */
  function EnvelopeFields(env: Envelope): seq<EncodedField> {
    if env.kind == KIND_PUBLIC_EVENT then
      [EncodedField(TAG_IDENTITY, env.eventID)] +
      SlotFields(env.public, TAG_PUBLIC_INLINE, TAG_PUBLIC_REFERENCE) +
      SlotFields(env.runtime, TAG_RUNTIME_INLINE, TAG_RUNTIME_REFERENCE)
    else if env.kind == KIND_RUNTIME_CONTROL then
      [EncodedField(TAG_IDENTITY, env.recordID)] + SlotFields(env.runtime, TAG_RUNTIME_INLINE, TAG_RUNTIME_REFERENCE)
    else if env.kind == KIND_OPENING_FENCE then
      [EncodedField(TAG_LEASE_EPOCH, BigEndian(env.leaseEpoch, 8))]
    else if env.kind == KIND_APPLICATION_PREFIX then
      [EncodedField(TAG_IDENTITY, env.commandID), EncodedField(TAG_LEASE_EPOCH, BigEndian(env.leaseEpoch, 8)),
       EncodedField(TAG_RUNTIME_COMMAND_ID, env.runtimeCommandID), EncodedField(TAG_COMMAND_KIND, env.commandKind)]
    else
      [EncodedField(TAG_IDENTITY, env.commandID), EncodedField(TAG_LEASE_EPOCH, BigEndian(env.leaseEpoch, 8)),
       EncodedField(TAG_RUNTIME_COMMAND_ID, env.runtimeCommandID), EncodedField(TAG_COMMAND_KIND, env.commandKind),
       EncodedField(TAG_ATTEMPT_ID, env.attemptID),
       EncodedField(TAG_ATTEMPT_JOURNAL_EPOCH, BigEndian(env.attemptJournalEpoch, 8)),
       EncodedField(TAG_DISPOSITION_KIND, env.dispositionKind)]
  }

  /** The fields this envelope has at tag `from` and above, in tag order. */
  function FieldsFrom(env: Envelope, from: nat): seq<EncodedField>
    decreases 12 - from
  {
    if from >= 12 then []
    else if from > 0 && FieldValue(env, from).Some? then [EncodedField(from, FieldValue(env, from).value)] + FieldsFrom(env, from + 1)
    else FieldsFrom(env, from + 1)
  }

  lemma AttemptFields(env: Envelope)
    requires KnownKind(env.kind)
    ensures FieldsFrom(env, 9) == if !env.IsDisposition() then [] else
              [EncodedField(TAG_ATTEMPT_ID, env.attemptID),
               EncodedField(TAG_ATTEMPT_JOURNAL_EPOCH, BigEndian(env.attemptJournalEpoch, 8)),
               EncodedField(TAG_DISPOSITION_KIND, env.dispositionKind)]
  {
    assert FieldsFrom(env, 11) == if !env.IsDisposition() then [] else [EncodedField(TAG_DISPOSITION_KIND, env.dispositionKind)];
  }

  lemma CommandFields(env: Envelope)
    requires KnownKind(env.kind)
    ensures FieldsFrom(env, 6) ==
              (if env.IsFence() || env.IsPrefix() || env.IsDisposition()
               then [EncodedField(TAG_LEASE_EPOCH, BigEndian(env.leaseEpoch, 8))] else []) +
              (if env.IsPrefix() || env.IsDisposition()
               then [EncodedField(TAG_RUNTIME_COMMAND_ID, env.runtimeCommandID), EncodedField(TAG_COMMAND_KIND, env.commandKind)]
               else []) + FieldsFrom(env, 9)
  {
    assert FieldsFrom(env, 8) ==
             (if env.IsPrefix() || env.IsDisposition() then [EncodedField(TAG_COMMAND_KIND, env.commandKind)] else []) + FieldsFrom(env, 9);
  }

  function TagField(env: Envelope, t: byte): seq<EncodedField> {
    if FieldValue(env, t).Some? then [EncodedField(t, FieldValue(env, t).value)] else []
  }

  lemma OneTag(env: Envelope, t: byte)
    requires 1 <= t <= 11
    ensures FieldsFrom(env, t) == TagField(env, t) + FieldsFrom(env, t + 1)
  {
  }

  lemma RuntimeTags(env: Envelope)
    ensures TagField(env, 4) + TagField(env, 5) ==
              if env.IsPublicEvent() || env.kind == KIND_RUNTIME_CONTROL
              then SlotFields(env.runtime, TAG_RUNTIME_INLINE, TAG_RUNTIME_REFERENCE) else []
  {
  }

  lemma PublicTags(env: Envelope)
    ensures TagField(env, 2) + TagField(env, 3) ==
              if env.IsPublicEvent() then SlotFields(env.public, TAG_PUBLIC_INLINE, TAG_PUBLIC_REFERENCE) else []
  {
  }

  lemma TwoTags(env: Envelope, t: byte)
    requires 1 <= t <= 10
    ensures FieldsFrom(env, t) == TagField(env, t) + TagField(env, t + 1) + FieldsFrom(env, t + 2)
  {
    OneTag(env, t);
    OneTag(env, t + 1);
    Regrouped(TagField(env, t), TagField(env, t + 1), FieldsFrom(env, t + 2));
  }

  lemma Regrouped(a: seq<EncodedField>, b: seq<EncodedField>, c: seq<EncodedField>)
    ensures a + (b + c) == a + b + c
  {
  }

  lemma FourTags(env: Envelope)
    ensures FieldsFrom(env, 2) == (TagField(env, 2) + TagField(env, 3)) + (TagField(env, 4) + TagField(env, 5)) + FieldsFrom(env, 6)
  {
    TwoTags(env, 2);
    TwoTags(env, 4);
    Regrouped(TagField(env, 2) + TagField(env, 3), TagField(env, 4) + TagField(env, 5), FieldsFrom(env, 6));
  }

  lemma BodyFields(env: Envelope)
    requires KnownKind(env.kind)
    ensures FieldsFrom(env, 2) ==
              (if env.IsPublicEvent() then SlotFields(env.public, TAG_PUBLIC_INLINE, TAG_PUBLIC_REFERENCE) else []) +
              (if env.IsPublicEvent() || env.kind == KIND_RUNTIME_CONTROL
               then SlotFields(env.runtime, TAG_RUNTIME_INLINE, TAG_RUNTIME_REFERENCE) else []) + FieldsFrom(env, 6)
  {
    RuntimeTags(env);
    PublicTags(env);
    FourTags(env);
  }

  /** Every kind lists its fields in strictly ascending tag order. */
  lemma FieldsAreInTagOrder(env: Envelope)
    requires KnownKind(env.kind)
    ensures EnvelopeFields(env) == FieldsFrom(env, 1)
  {
    AttemptFields(env);
    CommandFields(env);
    BodyFields(env);
    OneTag(env, 1);
  }

  function FieldBytes(field: EncodedField): seq<byte> {
    [field.tag] + BigEndian(|field.value|, 4) + field.value
  }

  function Concat(fields: seq<EncodedField>): seq<byte> {
    if fields == [] then [] else FieldBytes(fields[0]) + Concat(fields[1..])
  }

  function Header(kind: byte, count: nat, fieldsBytes: nat): (h: seq<byte>)
    ensures |h| == HEADER_BYTES
  {
    Magic() + [ENVELOPE_VERSION, kind] + BigEndian(count, 2) + BigEndian(fieldsBytes, 4)
  }

  // ---- encoding ------------------------------------------------------------------

  function Encoded(rules: CoreRules, env: Envelope): Result<seq<byte>, EnvelopeError> {
    var refused := ValidateEnvelope(rules, env);
    if refused.Some? then Err(refused.value)
    else
      var body := Concat(EnvelopeFields(env));
      if HEADER_BYTES + |body| > MAX_ENVELOPE_BYTES then Err(TooLargeError)
      else Ok(Header(env.kind, |EnvelopeFields(env)|, |body|) + body)
  }

  lemma {:induction false} ConcatAppend(fields: seq<EncodedField>, field: EncodedField)
    ensures Concat(fields + [field]) == Concat(fields) + FieldBytes(field)
  {
    if fields == [] {
      assert [field][1..] == [];
    } else {
      assert (fields + [field])[1..] == fields[1..] + [field];
      ConcatAppend(fields[1..], field);
    }
  }

  lemma {:induction false} ConcatOfFront(fields: seq<EncodedField>, i: nat)
    requires i <= |fields|
    ensures |Concat(fields[..i])| <= |Concat(fields)|
    decreases |fields| - i
  {
    if i == |fields| {
      assert fields[..i] == fields;
    } else {
      assert fields[..i + 1] == fields[..i] + [fields[i]];
      ConcatAppend(fields[..i], fields[i]);
      ConcatOfFront(fields, i + 1);
    }
  }

  /** The body's size, refused before it can pass the frame bound. */
  method FieldsSize(fields: seq<EncodedField>) returns (r: Option<nat>)
    ensures r == if HEADER_BYTES + |Concat(fields)| > MAX_ENVELOPE_BYTES then None else Some(|Concat(fields)|)
  {
    var fieldsBytes := 0;
    for i := 0 to |fields|
      invariant fieldsBytes == |Concat(fields[..i])| <= MAX_ENVELOPE_BYTES
    {
      assert fields[..i + 1] == fields[..i] + [fields[i]];
      ConcatAppend(fields[..i], fields[i]);
      ConcatOfFront(fields, i + 1);
      if fieldsBytes > MAX_ENVELOPE_BYTES - 5 - |fields[i].value| {
        return None;
      }
      fieldsBytes := fieldsBytes + 5 + |fields[i].value|;
    }
    assert fields[..|fields|] == fields;
    r := if HEADER_BYTES + fieldsBytes > MAX_ENVELOPE_BYTES then None else Some(fieldsBytes);
  }

  method AppendFields(header: seq<byte>, fields: seq<EncodedField>) returns (frame: seq<byte>)
    ensures frame == header + Concat(fields)
  {
    frame := header;
    for i := 0 to |fields|
      invariant frame == header + Concat(fields[..i])
    {
      assert fields[..i + 1] == fields[..i] + [fields[i]];
      ConcatAppend(fields[..i], fields[i]);
      frame := frame + [fields[i].tag];
      frame := frame + BigEndian(|fields[i].value|, 4);
      frame := frame + fields[i].value;
    }
    assert fields[..|fields|] == fields;
  }

  method EncodeEnvelope(rules: CoreRules, env: Envelope) returns (r: Result<seq<byte>, EnvelopeError>)
    ensures r == Encoded(rules, env)
  {
    var refused := ValidateEnvelope(rules, env);
    if refused.Some? {
      return Err(refused.value);
    }
    var fields := EnvelopeFields(env);
    var fieldsBytes := FieldsSize(fields);
    if fieldsBytes.None? {
      return Err(TooLargeError);
    }
    var frame := AppendFields(Header(env.kind, |fields|, fieldsBytes.value), fields);
    r := Ok(frame);
  }

  // ---- decoding ------------------------------------------------------------------

  function DecodeReferenceInto(rules: CoreRules, env: Envelope, tag: byte, value: seq<byte>): Result<Envelope, EnvelopeError> {
    var reference := DecodeBodyReference(rules, value);
    if reference.Err? then Err(reference.error)
    else if tag == TAG_PUBLIC_REFERENCE then Ok(env.(public := env.public.(reference := Some(reference.value))))
    else Ok(env.(runtime := env.runtime.(reference := Some(reference.value))))
  }

  function Word(value: seq<byte>): uint64
    requires |value| == 8
  {
    FromBigEndianBound(value);
    WordSizes();
    FromBigEndian(value)
  }

  function DecodeField(rules: CoreRules, env: Envelope, tag: byte, value: seq<byte>): Result<Envelope, EnvelopeError> {
    if tag == TAG_IDENTITY then
      if |value| > MAX_ID_BYTES then Err(InvalidError)
      else if env.kind == KIND_PUBLIC_EVENT then Ok(env.(eventID := value))
      else if env.kind == KIND_APPLICATION_PREFIX || env.kind == KIND_COMMAND_DISPOSITION then Ok(env.(commandID := value))
      else Ok(env.(recordID := value))
    else if tag == TAG_PUBLIC_INLINE then
      if |value| > MAX_INLINE_BODY_BYTES then Err(TooLargeError)
      else Ok(env.(public := env.public.(inline := Some(value))))
    else if tag == TAG_RUNTIME_INLINE then
      if |value| > MAX_INLINE_BODY_BYTES then Err(TooLargeError)
      else Ok(env.(runtime := env.runtime.(inline := Some(value))))
    else if tag == TAG_PUBLIC_REFERENCE || tag == TAG_RUNTIME_REFERENCE then DecodeReferenceInto(rules, env, tag, value)
    else if tag == TAG_LEASE_EPOCH then
      if |value| != 8 then Err(LengthError) else Ok(env.(leaseEpoch := Word(value)))
    else if tag == TAG_RUNTIME_COMMAND_ID then
      if |value| != 16 then Err(LengthError) else Ok(env.(runtimeCommandID := value))
    else if tag == TAG_COMMAND_KIND then
      if |value| > 64 then Err(InvalidError) else Ok(env.(commandKind := value))
    else if tag == TAG_ATTEMPT_ID then
      if |value| > MAX_ID_BYTES then Err(InvalidError) else Ok(env.(attemptID := value))
    else if tag == TAG_ATTEMPT_JOURNAL_EPOCH then
      if |value| != 8 then Err(LengthError) else Ok(env.(attemptJournalEpoch := Word(value)))
    else if tag == TAG_DISPOSITION_KIND then
      if |value| > 64 then Err(InvalidError) else Ok(env.(dispositionKind := value))
    else Ok(env)
  }

  function Require(seen: set<byte>, tags: seq<byte>): Option<EnvelopeError> {
    if forall t :: t in tags ==> t in seen then None else Some(MissingError)
  }

  function ExactlyOne(seen: set<byte>, first: byte, second: byte, required: bool): Option<EnvelopeError> {
    if first in seen && second in seen then Some(FieldError)
    else if required && first !in seen && second !in seen then Some(MissingError)
    else None
  }

  /** What the set of tags a frame carried must be for its kind. */
  function ValidateDecodedFields(kind: byte, seen: set<byte>): Option<EnvelopeError> {
    if !(seen <= AllowedFields(kind)) then Some(FieldError)
    else if kind == KIND_PUBLIC_EVENT then
      FirstOf(Require(seen, [TAG_IDENTITY]),
      FirstOf(ExactlyOne(seen, TAG_PUBLIC_INLINE, TAG_PUBLIC_REFERENCE, true),
              ExactlyOne(seen, TAG_RUNTIME_INLINE, TAG_RUNTIME_REFERENCE, false)))
    else if kind == KIND_RUNTIME_CONTROL then
      FirstOf(Require(seen, [TAG_IDENTITY]), ExactlyOne(seen, TAG_RUNTIME_INLINE, TAG_RUNTIME_REFERENCE, true))
    else if kind == KIND_OPENING_FENCE then Require(seen, [TAG_LEASE_EPOCH])
    else if kind == KIND_APPLICATION_PREFIX then
      Require(seen, [TAG_IDENTITY, TAG_LEASE_EPOCH, TAG_RUNTIME_COMMAND_ID, TAG_COMMAND_KIND])
    else if kind == KIND_COMMAND_DISPOSITION then
      Require(seen, [TAG_IDENTITY, TAG_LEASE_EPOCH, TAG_RUNTIME_COMMAND_ID, TAG_COMMAND_KIND,
                     TAG_ATTEMPT_ID, TAG_ATTEMPT_JOURNAL_EPOCH, TAG_DISPOSITION_KIND])
    else None
  }

  /** Where a decoder stands between two fields. */
  datatype Progress = Progress(env: Envelope, offset: nat, previousTag: nat, seen: set<byte>)

  /** One field taken off the frame. */
  function TakeField(rules: CoreRules, frame: seq<byte>, at: Progress): (r: Result<Progress, EnvelopeError>)
    requires at.offset <= |frame|
    ensures r.Ok? ==> at.offset < r.value.offset <= |frame|
  {
    if |frame| - at.offset < 5 then Err(LengthError)
    else
      var tag := frame[at.offset];
      if tag < TAG_IDENTITY || tag > TAG_DISPOSITION_KIND then Err(FieldError)
      else if tag <= at.previousTag then Err(OrderError)
      else
        var length := FromBigEndian(frame[at.offset + 1..at.offset + 5]);
        var start := at.offset + 5;
        if length > MAX_ENVELOPE_BYTES then Err(TooLargeError)
        else if length > |frame| - start then Err(LengthError)
        else
          var next := Progress(at.env, start + length, tag, at.seen + {tag});
          if tag !in AllowedFields(at.env.kind) then Ok(next)
          else
            var decoded := DecodeField(rules, at.env, tag, frame[start..start + length]);
            if decoded.Err? then Err(decoded.error) else Ok(next.(env := decoded.value))
  }

  function TakeFields(rules: CoreRules, frame: seq<byte>, count: nat, at: Progress): Result<Progress, EnvelopeError>
    requires at.offset <= |frame|
  {
    if count == 0 then Ok(at)
    else
      var next := TakeField(rules, frame, at);
      if next.Err? then next else TakeFields(rules, frame, count - 1, next.value)
  }

  /** None when the header admits reading fields. */
  function ValidateHeader(frame: seq<byte>): (r: Option<EnvelopeError>)
    ensures r.None? ==> HEADER_BYTES <= |frame| <= MAX_ENVELOPE_BYTES && KnownKind(frame[5])
  {
    if |frame| > MAX_ENVELOPE_BYTES then Some(TooLargeError)
    else if |frame| == 0 then Some(MalformedError)
    else if |frame| < HEADER_BYTES then Some(LengthError)
    else if frame[..4] != Magic() then Some(MalformedError)
    else if frame[4] != ENVELOPE_VERSION then Some(VersionError)
    else if !KnownKind(frame[5]) then Some(KindError)
    else
      var fieldsBytes := FromBigEndian(frame[8..12]);
      if fieldsBytes > MAX_ENVELOPE_BYTES - HEADER_BYTES then Some(TooLargeError)
      else if HEADER_BYTES + fieldsBytes > |frame| then Some(LengthError)
      else if HEADER_BYTES + fieldsBytes < |frame| then Some(TrailingError)
      else None
  }

  function Start(kind: byte): Progress { Progress(Blank(kind), HEADER_BYTES, 0, {}) }

  function Decoded(rules: CoreRules, frame: seq<byte>): Result<Envelope, EnvelopeError> {
    var header := ValidateHeader(frame);
    if header.Some? then Err(header.value)
    else
      var taken := TakeFields(rules, frame, FromBigEndian(frame[6..8]), Start(frame[5]));
      if taken.Err? then Err(taken.error)
      else if taken.value.offset != |frame| then Err(LengthError)
      else
        var refused := FirstOf(ValidateDecodedFields(frame[5], taken.value.seen), ValidateEnvelope(rules, taken.value.env));
        if refused.Some? then Err(refused.value) else Ok(taken.value.env)
  }

  /** One pass of the field loop. */
  method DecodeNextField(rules: CoreRules, frame: seq<byte>, at: Progress) returns (r: Result<Progress, EnvelopeError>)
    requires at.offset <= |frame|
    ensures r == TakeField(rules, frame, at)
  {
    var offset := at.offset;
    if |frame| - offset < 5 {
      return Err(LengthError);
    }
    var tag := frame[offset];
    if tag < TAG_IDENTITY || tag > TAG_DISPOSITION_KIND {
      return Err(FieldError);
    }
    if tag <= at.previousTag {
      return Err(OrderError);
    }
    var length := FromBigEndian(frame[offset + 1..offset + 5]);
    offset := offset + 5;
    if length > MAX_ENVELOPE_BYTES {
      return Err(TooLargeError);
    }
    if length > |frame| - offset {
      return Err(LengthError);
    }
    var value := frame[offset..offset + length];
    offset := offset + length;
    if tag !in AllowedFields(at.env.kind) {
      return Ok(Progress(at.env, offset, tag, at.seen + {tag}));
    }
    var decoded := DecodeField(rules, at.env, tag, value);
    if decoded.Err? {
      return Err(decoded.error);
    }
    r := Ok(Progress(decoded.value, offset, tag, at.seen + {tag}));
  }

  method DecodeFields(rules: CoreRules, frame: seq<byte>, kind: byte, fieldCount: nat) returns (r: Result<Progress, EnvelopeError>)
    requires HEADER_BYTES <= |frame|
    ensures r == TakeFields(rules, frame, fieldCount, Start(kind))
  {
    var at := Start(kind);
    for i := 0 to fieldCount
      invariant at.offset <= |frame|
      invariant TakeFields(rules, frame, fieldCount, Start(kind)) == TakeFields(rules, frame, fieldCount - i, at)
    {
      var next := DecodeNextField(rules, frame, at);
      if next.Err? {
        return Err(next.error);
      }
      at := next.value;
    }
    r := Ok(at);
  }

  method DecodeEnvelope(rules: CoreRules, frame: seq<byte>) returns (r: Result<Envelope, EnvelopeError>)
    ensures r == Decoded(rules, frame)
  {
    var header := ValidateHeader(frame);
    if header.Some? {
      return Err(header.value);
    }
    var kind := frame[5];
    var taken := DecodeFields(rules, frame, kind, FromBigEndian(frame[6..8]));
    if taken.Err? {
      return Err(taken.error);
    }
    if taken.value.offset != |frame| {
      return Err(LengthError);
    }
    var shape := ValidateDecodedFields(kind, taken.value.seen);
    if shape.Some? {
      return Err(shape.value);
    }
    var refused := ValidateEnvelope(rules, taken.value.env);
    if refused.Some? {
      return Err(refused.value);
    }
    r := Ok(taken.value.env);
  }

  // ---- decoding what was encoded ---------------------------------------------------

  /** The envelope with every member carried at tag `n` or above still unread. */
  function ReadBelow(env: Envelope, n: nat): Envelope {
    var public := BodySlot(if n > 2 then env.public.inline else None, if n > 3 then env.public.reference else None);
    var runtime := BodySlot(if n > 4 then env.runtime.inline else None, if n > 5 then env.runtime.reference else None);
    Envelope(env.kind,
             if n > 1 then env.eventID else [], if n > 1 then env.recordID else [], public, runtime,
             if n > 6 then env.leaseEpoch else 0, if n > 1 then env.commandID else [],
             if n > 7 then env.runtimeCommandID else ZeroUuid(), if n > 8 then env.commandKind else [],
             if n > 9 then env.attemptID else [], if n > 10 then env.attemptJournalEpoch else 0,
             if n > 11 then env.dispositionKind else [])
  }

  predicate Valid(rules: CoreRules, env: Envelope) { ValidateEnvelope(rules, env).None? }

  lemma AbsentFieldsAreBlank(rules: CoreRules, env: Envelope, tag: byte)
    requires Valid(rules, env) && 1 <= tag <= 11 && FieldValue(env, tag).None?
    ensures ReadBelow(env, tag + 1) == ReadBelow(env, tag)
  {
  }

  /** The bounds a decoder checks before it retains a value. */
  predicate Bounded(rules: CoreRules, env: Envelope) {
    && |env.eventID| <= MAX_ID_BYTES && |env.recordID| <= MAX_ID_BYTES && |env.commandID| <= MAX_ID_BYTES
    && |env.attemptID| <= MAX_ID_BYTES && |env.commandKind| <= 64 && |env.dispositionKind| <= 64
    && BoundedSlot(rules, env.public) && BoundedSlot(rules, env.runtime)
  }

  predicate BoundedSlot(rules: CoreRules, slot: BodySlot) {
    && (slot.inline.Some? ==> |slot.inline.value| <= MAX_INLINE_BODY_BYTES)
    && (slot.reference.Some? ==> ValidReference(rules, slot.reference.value))
  }

  lemma ValidIsBounded(rules: CoreRules, env: Envelope)
    requires BoundsIdentities(rules) && Valid(rules, env)
    ensures Bounded(rules, env)
  {
  }

  lemma PresentReferenceIsRead(rules: CoreRules, env: Envelope, tag: byte)
    requires Bounded(rules, env) && (tag == TAG_PUBLIC_REFERENCE || tag == TAG_RUNTIME_REFERENCE) && FieldValue(env, tag).Some?
    ensures DecodeField(rules, ReadBelow(env, tag), tag, FieldValue(env, tag).value) == Ok(ReadBelow(env, tag + 1))
  {
    if tag == TAG_PUBLIC_REFERENCE { ReferenceRoundTrip(rules, env.public.reference.value); }
    if tag == TAG_RUNTIME_REFERENCE { ReferenceRoundTrip(rules, env.runtime.reference.value); }
  }

  lemma PresentFieldsAreRead(rules: CoreRules, env: Envelope, tag: byte)
    requires Bounded(rules, env) && KnownKind(env.kind) && 1 <= tag <= 11 && FieldValue(env, tag).Some?
    requires tag == TAG_IDENTITY ==> ReadBelow(env, 2) == Identified(env)
    ensures DecodeField(rules, ReadBelow(env, tag), tag, FieldValue(env, tag).value) == Ok(ReadBelow(env, tag + 1))
  {
    if tag == TAG_PUBLIC_REFERENCE || tag == TAG_RUNTIME_REFERENCE {
      PresentReferenceIsRead(rules, env, tag);
    } else {
      WordSizes();
      BigEndianRoundTrip(env.leaseEpoch, 8);
      BigEndianRoundTrip(env.attemptJournalEpoch, 8);
    }
  }

  /** An envelope whose one identity member is its kind's. */
  function Identified(env: Envelope): Envelope {
    if env.IsPublicEvent() then Blank(env.kind).(eventID := env.eventID)
    else if env.kind == KIND_RUNTIME_CONTROL then Blank(env.kind).(recordID := env.recordID)
    else Blank(env.kind).(commandID := env.commandID)
  }

  lemma OneIdentity(rules: CoreRules, env: Envelope)
    requires Valid(rules, env)
    ensures ReadBelow(env, 2) == Identified(env)
  {
  }

  ghost predicate Present(env: Envelope, t: byte) { FieldValue(env, t).Some? }

  ghost function TagsBelow(env: Envelope, n: nat): set<byte> {
    set t: byte | 1 <= t < n && Present(env, t)
  }

  /** A decoder that has read every field below `t` of a frame that goes on with
      this envelope's fields from `t`. */
  ghost predicate ReadUpTo(frame: seq<byte>, env: Envelope, t: nat, at: Progress) {
    && at.offset <= |frame| && frame[at.offset..] == Concat(FieldsFrom(env, t))
    && at.env == ReadBelow(env, t) && at.previousTag < t && at.seen == TagsBelow(env, t)
  }

  lemma FieldOnFrame(frame: seq<byte>, offset: nat, field: EncodedField, tail: seq<byte>)
    requires offset <= |frame| && |field.value| < Pow256(4) && frame[offset..] == FieldBytes(field) + tail
    ensures var start := offset + 5;
            && start + |field.value| <= |frame|
            && frame[offset] == field.tag
            && FromBigEndian(frame[offset + 1..start]) == |field.value|
            && frame[start..start + |field.value|] == field.value
            && frame[start + |field.value|..] == tail
  {
    var rest, n := frame[offset..], |field.value|;
    assert frame[offset] == rest[0];
    assert frame[offset + 1..offset + 5] == rest[1..5] == BigEndian(n, 4);
    assert frame[offset + 5..offset + 5 + n] == rest[5..5 + n] == field.value;
    assert frame[offset + 5 + n..] == rest[5 + n..];
    BigEndianRoundTrip(n, 4);
  }

  lemma FieldIsTaken(rules: CoreRules, frame: seq<byte>, at: Progress, field: EncodedField, tail: seq<byte>, decoded: Envelope)
    requires at.offset <= |frame| <= MAX_ENVELOPE_BYTES && frame[at.offset..] == FieldBytes(field) + tail
    requires at.previousTag < field.tag && 1 <= field.tag <= 11 && field.tag in AllowedFields(at.env.kind)
    requires DecodeField(rules, at.env, field.tag, field.value) == Ok(decoded)
    ensures var end := at.offset + 5 + |field.value|;
            && TakeField(rules, frame, at) == Ok(Progress(decoded, end, field.tag, at.seen + {field.tag}))
            && frame[end..] == tail
  {
    WordSizes();
    assert |frame[at.offset..]| == 5 + |field.value| + |tail|;
    FieldOnFrame(frame, at.offset, field, tail);
  }

  lemma FirstFieldFrom(env: Envelope, t: byte)
    requires 1 <= t <= 11 && Present(env, t)
    ensures Concat(FieldsFrom(env, t)) == FieldBytes(EncodedField(t, FieldValue(env, t).value)) + Concat(FieldsFrom(env, t + 1))
  {
    assert FieldsFrom(env, t)[1..] == FieldsFrom(env, t + 1);
  }

  lemma TagsGrow(env: Envelope, t: byte)
    requires 1 <= t <= 11
    ensures TagsBelow(env, t + 1) == if Present(env, t) then TagsBelow(env, t) + {t} else TagsBelow(env, t)
  {
  }

  lemma NextFieldIsTaken(rules: CoreRules, frame: seq<byte>, env: Envelope, t: byte, at: Progress)
    requires Bounded(rules, env) && KnownKind(env.kind) && ReadBelow(env, 2) == Identified(env)
    requires 1 <= t <= 11 && Present(env, t) && ReadUpTo(frame, env, t, at) && |frame| <= MAX_ENVELOPE_BYTES
    ensures TakeField(rules, frame, at).Ok? && ReadUpTo(frame, env, t + 1, TakeField(rules, frame, at).value)
  {
    FirstFieldFrom(env, t);
    PresentFieldsAreRead(rules, env, t);
    var field, tail := EncodedField(t, FieldValue(env, t).value), Concat(FieldsFrom(env, t + 1));
    FieldIsTaken(rules, frame, at, field, tail, ReadBelow(env, t + 1));
    TagsGrow(env, t);
  }

  lemma {:induction false} RemainingFieldsAreTaken(rules: CoreRules, frame: seq<byte>, env: Envelope, t: nat, at: Progress)
    requires BoundsIdentities(rules) && Valid(rules, env)
    requires 1 <= t <= 12 && ReadUpTo(frame, env, t, at) && |frame| <= MAX_ENVELOPE_BYTES
    ensures var taken := TakeFields(rules, frame, |FieldsFrom(env, t)|, at);
            taken.Ok? && ReadUpTo(frame, env, 12, taken.value)
    decreases 12 - t
  {
    if t < 12 {
      if Present(env, t) {
        ValidIsBounded(rules, env);
        OneIdentity(rules, env);
        NextFieldIsTaken(rules, frame, env, t, at);
        RemainingFieldsAreTaken(rules, frame, env, t + 1, TakeField(rules, frame, at).value);
      } else {
        AbsentFieldsAreBlank(rules, env, t);
        TagsGrow(env, t);
        RemainingFieldsAreTaken(rules, frame, env, t + 1, at);
      }
    }
  }

  lemma PresentTagsAreRequired(rules: CoreRules, env: Envelope)
    requires Valid(rules, env)
    ensures ValidateDecodedFields(env.kind, TagsBelow(env, 12)).None?
  {
    assert forall t: byte :: t in TagsBelow(env, 12) <==> Present(env, t);
  }

  lemma HeaderIsRead(frame: seq<byte>, kind: byte, count: nat, body: seq<byte>)
    requires frame == Header(kind, count, |body|) + body && KnownKind(kind)
    requires count < Pow256(2) && |frame| <= MAX_ENVELOPE_BYTES
    ensures ValidateHeader(frame).None? && frame[5] == kind && FromBigEndian(frame[6..8]) == count
    ensures frame[HEADER_BYTES..] == body
  {
    WordSizes();
    var header := Header(kind, count, |body|);
    assert frame[..4] == header[..4] == Magic();
    assert frame[6..8] == header[6..8] == BigEndian(count, 2);
    assert frame[8..12] == header[8..12] == BigEndian(|body|, 4);
    BigEndianRoundTrip(count, 2);
    BigEndianRoundTrip(|body|, 4);
  }

  lemma {:induction false} AtMostOneFieldPerTag(env: Envelope, t: nat)
    requires t <= 12
    ensures |FieldsFrom(env, t)| <= 12 - t
    decreases 12 - t
  {
    if t < 12 { AtMostOneFieldPerTag(env, t + 1); }
  }

  lemma DecodeAfterEncode(rules: CoreRules, env: Envelope)
    requires BoundsIdentities(rules) && Encoded(rules, env).Ok?
    ensures Decoded(rules, Encoded(rules, env).value) == Ok(env)
  {
    var frame := Encoded(rules, env).value;
    var body := Concat(EnvelopeFields(env));
    FieldsAreInTagOrder(env);
    AtMostOneFieldPerTag(env, 1);
    WordSizes();
    HeaderIsRead(frame, env.kind, |EnvelopeFields(env)|, body);
    assert TagsBelow(env, 1) == {};
    RemainingFieldsAreTaken(rules, frame, env, 1, Start(env.kind));
    PresentTagsAreRequired(rules, env);
  }

  // ---- encoding what was decoded ---------------------------------------------------

  lemma DecodedReferenceIsItsBytes(rules: CoreRules, env: Envelope, tag: byte, value: seq<byte>)
    requires tag in AllowedFields(env.kind) && (tag == TAG_PUBLIC_REFERENCE || tag == TAG_RUNTIME_REFERENCE)
    requires DecodeField(rules, env, tag, value).Ok?
    ensures FieldValue(DecodeField(rules, env, tag, value).value, tag) == Some(value)
  {
    ReferenceIsCanonical(rules, value);
  }

  /** A decoded field re-encodes to the very bytes it came from. */
  lemma DecodedFieldIsItsBytes(rules: CoreRules, env: Envelope, tag: byte, value: seq<byte>)
    requires tag in AllowedFields(env.kind) && DecodeField(rules, env, tag, value).Ok?
    ensures DecodeField(rules, env, tag, value).value.kind == env.kind
    ensures FieldValue(DecodeField(rules, env, tag, value).value, tag) == Some(value)
  {
    if tag == TAG_PUBLIC_REFERENCE || tag == TAG_RUNTIME_REFERENCE {
      DecodedReferenceIsItsBytes(rules, env, tag, value);
    } else if tag == TAG_LEASE_EPOCH || tag == TAG_ATTEMPT_JOURNAL_EPOCH {
      FromBigEndianRoundTrip(value);
    }
  }

  lemma OtherFieldsStay(rules: CoreRules, env: Envelope, tag: byte, value: seq<byte>, other: byte)
    requires tag in AllowedFields(env.kind) && DecodeField(rules, env, tag, value).Ok? && other != tag
    ensures FieldValue(DecodeField(rules, env, tag, value).value, other) == FieldValue(env, other)
  {
  }

  /** The fields of `env` at tag `from` and above that a frame actually carried. */
  ghost function FieldsSeen(env: Envelope, seen: set<byte>, from: nat): seq<EncodedField>
    decreases 12 - from
  {
    if from >= 12 then []
    else if from in seen && FieldValue(env, from).Some? then
      [EncodedField(from, FieldValue(env, from).value)] + FieldsSeen(env, seen, from + 1)
    else FieldsSeen(env, seen, from + 1)
  }

  lemma {:induction false} SkipUnseen(env: Envelope, seen: set<byte>, from: nat, to: nat)
    requires from <= to <= 12 && forall t: byte :: from <= t < to ==> t !in seen
    ensures FieldsSeen(env, seen, from) == FieldsSeen(env, seen, to)
    decreases 12 - from
  {
    if from < to { SkipUnseen(env, seen, from + 1, to); }
  }

  lemma FirstSeen(env: Envelope, seen: set<byte>, from: nat, tag: byte)
    requires from <= tag <= 11 && tag in seen && FieldValue(env, tag).Some? && forall t: byte :: from <= t < tag ==> t !in seen
    ensures Concat(FieldsSeen(env, seen, from)) ==
              FieldBytes(EncodedField(tag, FieldValue(env, tag).value)) + Concat(FieldsSeen(env, seen, tag + 1))
    ensures |FieldsSeen(env, seen, from)| == 1 + |FieldsSeen(env, seen, tag + 1)|
  {
    SkipUnseen(env, seen, from, tag);
    assert FieldsSeen(env, seen, tag)[1..] == FieldsSeen(env, seen, tag + 1);
  }

  /** From one point of the loop to a later one, tags only rise, and what was read
      before is kept. */
  ghost predicate TagsRead(at: Progress, last: Progress) {
    && last.env.kind == at.env.kind && at.seen <= last.seen && at.previousTag <= last.previousTag <= 11
    && (forall t :: t in last.seen && t !in at.seen ==> at.previousTag < t)
    && (forall t :: t in at.seen || t !in last.seen ==> FieldValue(last.env, t) == FieldValue(at.env, t))
    && (forall t :: t in last.seen && t !in at.seen ==> FieldValue(last.env, t).Some?)
  }

  /** And the fields read are the frame's bytes in between. */
  ghost predicate ReadBetween(frame: seq<byte>, count: nat, at: Progress, last: Progress) {
    && at.offset <= last.offset <= |frame| && TagsRead(at, last)
    && frame[at.offset..last.offset] == Concat(FieldsSeen(last.env, last.seen, at.previousTag + 1))
    && count == |FieldsSeen(last.env, last.seen, at.previousTag + 1)|
  }

  lemma TagsReadOneMore(at: Progress, next: Progress, last: Progress, tag: byte)
    requires TagsRead(next, last) && Rising(at) && at.previousTag < tag == next.previousTag <= 11
    requires next.seen == at.seen + {tag} && next.env.kind == at.env.kind && FieldValue(next.env, tag).Some?
    requires forall t :: t != tag ==> FieldValue(next.env, t) == FieldValue(at.env, t)
    ensures TagsRead(at, last) && tag in last.seen && FieldValue(last.env, tag) == FieldValue(next.env, tag)
    ensures forall t: byte :: at.previousTag + 1 <= t < tag ==> t !in last.seen
  {
    assert tag in next.seen;
  }

  ghost predicate Rising(at: Progress) { at.previousTag <= 11 && forall t :: t in at.seen ==> t <= at.previousTag }

  lemma FieldTaken(rules: CoreRules, frame: seq<byte>, at: Progress)
    requires at.offset <= |frame| && TakeField(rules, frame, at).Ok? && frame[at.offset] in AllowedFields(at.env.kind)
    ensures var tag, next := frame[at.offset], TakeField(rules, frame, at).value;
            && at.previousTag < tag == next.previousTag <= 11 && next.seen == at.seen + {tag}
            && at.offset + 5 <= next.offset <= |frame|
            && FromBigEndian(frame[at.offset + 1..at.offset + 5]) == next.offset - at.offset - 5
            && DecodeField(rules, at.env, tag, frame[at.offset + 5..next.offset]) == Ok(next.env)
  {
  }

  lemma OneFieldRead(rules: CoreRules, frame: seq<byte>, at: Progress)
    requires at.offset <= |frame| && Rising(at) && TakeField(rules, frame, at).Ok?
    requires frame[at.offset] in AllowedFields(at.env.kind)
    ensures var next := TakeField(rules, frame, at).value;
            var tag := frame[at.offset];
            && next.env.kind == at.env.kind && Rising(next) && at.previousTag < tag == next.previousTag <= 11
            && next.seen == at.seen + {tag}
            && FieldValue(next.env, tag).Some?
            && frame[at.offset..next.offset] == FieldBytes(EncodedField(tag, FieldValue(next.env, tag).value))
            && (forall t :: t != tag ==> FieldValue(next.env, t) == FieldValue(at.env, t))
  {
    FieldTaken(rules, frame, at);
    var tag, next := frame[at.offset], TakeField(rules, frame, at).value;
    var value := frame[at.offset + 5..next.offset];
    DecodedFieldIsItsBytes(rules, at.env, tag, value);
    forall t | t != tag ensures FieldValue(next.env, t) == FieldValue(at.env, t) {
      OtherFieldsStay(rules, at.env, tag, value, t);
    }
    FieldSpelled(frame, at.offset, next.offset);
  }

  lemma FieldSpelled(frame: seq<byte>, offset: nat, end: nat)
    requires offset + 5 <= end <= |frame| && FromBigEndian(frame[offset + 1..offset + 5]) == end - offset - 5
    ensures frame[offset..end] == FieldBytes(EncodedField(frame[offset], frame[offset + 5..end]))
  {
    var start := offset + 5;
    FromBigEndianRoundTrip(frame[offset + 1..start]);
    assert frame[offset..start] == [frame[offset]] + frame[offset + 1..start];
    assert frame[offset..end] == frame[offset..start] + frame[start..end];
  }

  lemma {:induction false} SeenOnlyGrows(rules: CoreRules, frame: seq<byte>, count: nat, at: Progress)
    requires at.offset <= |frame| && TakeFields(rules, frame, count, at).Ok?
    ensures at.seen <= TakeFields(rules, frame, count, at).value.seen
  {
    if count > 0 { SeenOnlyGrows(rules, frame, count - 1, TakeField(rules, frame, at).value); }
  }

  lemma SliceJoin(frame: seq<byte>, a: nat, b: nat, c: nat)
    requires a <= b <= c <= |frame|
    ensures frame[a..c] == frame[a..b] + frame[b..c]
  {
  }

  lemma ReadOneThenRest(frame: seq<byte>, count: nat, at: Progress, next: Progress, last: Progress, tag: byte)
    requires ReadBetween(frame, count, next, last) && Rising(at) && at.previousTag < tag == next.previousTag <= 11
    requires next.seen == at.seen + {tag} && at.offset <= next.offset && next.env.kind == at.env.kind
    requires FieldValue(next.env, tag).Some?
    requires frame[at.offset..next.offset] == FieldBytes(EncodedField(tag, FieldValue(next.env, tag).value))
    requires forall t :: t != tag ==> FieldValue(next.env, t) == FieldValue(at.env, t)
    ensures ReadBetween(frame, count + 1, at, last)
  {
    TagsReadOneMore(at, next, last, tag);
    FirstSeen(last.env, last.seen, at.previousTag + 1, tag);
    SliceJoin(frame, at.offset, next.offset, last.offset);
  }

  lemma {:induction false} FieldsWereRead(rules: CoreRules, frame: seq<byte>, count: nat, at: Progress)
    requires at.offset <= |frame| && Rising(at) && TakeFields(rules, frame, count, at).Ok?
    requires TakeFields(rules, frame, count, at).value.seen <= AllowedFields(at.env.kind)
    ensures ReadBetween(frame, count, at, TakeFields(rules, frame, count, at).value)
  {
    if count == 0 {
      SkipUnseen(at.env, at.seen, at.previousTag + 1, 12);
    } else {
      var next := TakeField(rules, frame, at).value;
      SeenOnlyGrows(rules, frame, count - 1, next);
      OneFieldRead(rules, frame, at);
      FieldsWereRead(rules, frame, count - 1, next);
      ReadOneThenRest(frame, count - 1, at, next, TakeFields(rules, frame, count, at).value, frame[at.offset]);
    }
  }

  lemma {:induction false} AllFieldsSeen(env: Envelope, seen: set<byte>, from: nat)
    requires forall t: byte :: 1 <= t <= 11 ==> (FieldValue(env, t).Some? <==> t in seen)
    requires 0 < from
    ensures FieldsSeen(env, seen, from) == FieldsFrom(env, from)
    decreases 12 - from
  {
    if from < 12 { AllFieldsSeen(env, seen, from + 1); }
  }

  /** A required tag that is absent is refused, so what is unseen is optional. */
  lemma UnseenTagsAreOptional(kind: byte, seen: set<byte>, t: byte)
    requires KnownKind(kind) && ValidateDecodedFields(kind, seen).None? && t !in seen
    ensures FieldValue(Blank(kind), t).None?
  {
  }

  lemma HeaderIsCanonical(frame: seq<byte>)
    requires ValidateHeader(frame).None?
    ensures frame == Header(frame[5], FromBigEndian(frame[6..8]), |frame| - HEADER_BYTES) + frame[HEADER_BYTES..]
  {
    FromBigEndianRoundTrip(frame[6..8]);
    FromBigEndianRoundTrip(frame[8..12]);
    assert frame == frame[..4] + [frame[4], frame[5]] + frame[6..8] + frame[8..12] + frame[12..];
  }

  lemma EncodeAfterDecode(rules: CoreRules, frame: seq<byte>)
    requires Decoded(rules, frame).Ok?
    ensures Encoded(rules, Decoded(rules, frame).value) == Ok(frame)
  {
    var kind, count := frame[5], FromBigEndian(frame[6..8]);
    var taken := TakeFields(rules, frame, count, Start(kind)).value;
    FieldsWereRead(rules, frame, count, Start(kind));
    forall t: byte | 1 <= t <= 11 ensures FieldValue(taken.env, t).Some? <==> t in taken.seen {
      if t !in taken.seen { UnseenTagsAreOptional(kind, taken.seen, t); }
    }
    AllFieldsSeen(taken.env, taken.seen, 1);
    FieldsAreInTagOrder(taken.env);
    HeaderIsCanonical(frame);
    assert frame[HEADER_BYTES..|frame|] == frame[HEADER_BYTES..];
  }

  /** The codec is a bijection: an envelope encodes to a frame exactly when that
      frame decodes to that envelope. */
  lemma CodecIsABijection(rules: CoreRules, env: Envelope, frame: seq<byte>)
    requires BoundsIdentities(rules)
    ensures Encoded(rules, env) == Ok(frame) <==> Decoded(rules, frame) == Ok(env)
  {
    if Encoded(rules, env) == Ok(frame) { DecodeAfterEncode(rules, env); }
    if Decoded(rules, frame) == Ok(env) { EncodeAfterDecode(rules, frame); }
  }

  // ---- the records there are --------------------------------------------------------

  /** A body slot holds inline bytes within the ceiling, or a reference to a valid object
      by a real digest, and never both. */
  predicate GoodSlot(rules: CoreRules, slot: BodySlot) {
    match slot
    case BodySlot(None, None) => true
    case BodySlot(Some(body), None) => |body| <= 0x8_0000
    case BodySlot(None, Some(reference)) => rules.validObjectID(reference.objectID) && exists i :: 0 <= i < 32 && reference.sha256[i] != 0
    case BodySlot(Some(_), Some(_)) => false
  }

  /** The command it names, the runtime's name for it, its kind and the writing grant. */
  predicate GoodCorrelation(rules: CoreRules, env: Envelope) {
    && env.commandID != [] && rules.validID(env.commandID) && (exists i :: 0 <= i < 16 && env.runtimeCommandID[i] != 0)
    && 1 <= |env.commandKind| <= 64 && rules.validUtf8(env.commandKind) && env.leaseEpoch >= 1
  }

  /** The five kinds of record, each with its own members and nothing else. */
  predicate GoodRecord(rules: CoreRules, env: Envelope) {
    if env.kind == 1 then
      && env == Blank(1).(eventID := env.eventID, public := env.public, runtime := env.runtime)
      && env.eventID != [] && rules.validID(env.eventID) && env.public != BodySlot(None, None)
      && (env.public.inline.Some? ==> rules.validEventBody(env.eventID, env.public.inline.value))
      && GoodSlot(rules, env.public) && GoodSlot(rules, env.runtime)
    else if env.kind == 2 then
      && env == Blank(2).(recordID := env.recordID, runtime := env.runtime)
      && 1 <= |env.recordID| <= 256 && rules.validUtf8(env.recordID)
      && env.runtime != BodySlot(None, None) && GoodSlot(rules, env.runtime)
    else if env.kind == 3 then env == Blank(3).(leaseEpoch := env.leaseEpoch) && env.leaseEpoch >= 1
    else if env.kind == 4 then
      && env == Blank(4).(leaseEpoch := env.leaseEpoch, commandID := env.commandID,
                          runtimeCommandID := env.runtimeCommandID, commandKind := env.commandKind)
      && GoodCorrelation(rules, env)
    else
      && env.kind == 5
      && env == Blank(5).(leaseEpoch := env.leaseEpoch, commandID := env.commandID,
                          runtimeCommandID := env.runtimeCommandID, commandKind := env.commandKind,
                          attemptID := env.attemptID, attemptJournalEpoch := env.attemptJournalEpoch,
                          dispositionKind := env.dispositionKind)
      && GoodCorrelation(rules, env)
      && 1 <= |env.attemptID| <= 256 && rules.validUtf8(env.attemptID) && env.attemptJournalEpoch >= 1
      && env.dispositionKind in {Ascii("applied"), Ascii("no_op"), Ascii("refused"), Ascii("not_applied")}
  }

  lemma GoodSlotExactlyWhen(rules: CoreRules, slot: BodySlot)
    ensures ValidateSlot(rules, slot).None? <==> GoodSlot(rules, slot)
  {
    if slot.reference.Some? {
      assert slot.reference.value.sha256 == ZeroDigest() || exists i :: 0 <= i < 32 && slot.reference.value.sha256[i] != 0;
    }
  }

  lemma GoodCorrelationExactlyWhen(rules: CoreRules, env: Envelope)
    ensures ValidateCommandCorrelation(rules, env).None? <==> GoodCorrelation(rules, env)
  {
    assert env.runtimeCommandID == ZeroUuid() || exists i :: 0 <= i < 16 && env.runtimeCommandID[i] != 0;
  }

  /** The validator both directions end in accepts exactly those records. */
  lemma ValidExactlyWhen(rules: CoreRules, env: Envelope)
    ensures Valid(rules, env) <==> GoodRecord(rules, env)
  {
    GoodSlotExactlyWhen(rules, env.public);
    GoodSlotExactlyWhen(rules, env.runtime);
    GoodCorrelationExactlyWhen(rules, env);
  }

  // ---- the frame, byte by byte --------------------------------------------------------

  /** Tag, four bytes of length, value. */
  function Spelt(tag: byte, value: seq<byte>): seq<byte> { [tag] + BigEndian(|value|, 4) + value }

  function SpeltSlot(slot: BodySlot, inlineTag: byte, referenceTag: byte): seq<byte> {
    (if slot.inline.Some? then Spelt(inlineTag, slot.inline.value) else []) +
    (if slot.reference.None? then []
     else
       var body := slot.reference.value;
       Spelt(referenceTag, [1] + BigEndian(|body.objectID|, 2) + body.objectID + BigEndian(body.sizeBytes, 8) + body.sha256))
  }

  /** The command, the writing grant, the runtime's name for it and its kind. */
  function SpeltCommand(env: Envelope): seq<byte> {
    Spelt(1, env.commandID) + Spelt(6, BigEndian(env.leaseEpoch, 8)) + Spelt(7, env.runtimeCommandID) + Spelt(8, env.commandKind)
  }

  function SpeltAttempt(env: Envelope): seq<byte> {
    Spelt(9, env.attemptID) + Spelt(10, BigEndian(env.attemptJournalEpoch, 8)) + Spelt(11, env.dispositionKind)
  }

  /** Every member a record of each kind has, in the one order there is. */
  function SpeltBody(env: Envelope): seq<byte> {
    if env.kind == 1 then Spelt(1, env.eventID) + SpeltSlot(env.public, 2, 3) + SpeltSlot(env.runtime, 4, 5)
    else if env.kind == 2 then Spelt(1, env.recordID) + SpeltSlot(env.runtime, 4, 5)
    else if env.kind == 3 then Spelt(6, BigEndian(env.leaseEpoch, 8))
    else if env.kind == 4 then SpeltCommand(env)
    else SpeltCommand(env) + SpeltAttempt(env)
  }

  lemma {:induction false} ConcatJoins(a: seq<EncodedField>, b: seq<EncodedField>)
    ensures Concat(a + b) == Concat(a) + Concat(b)
  {
    if a == [] {
      assert a + b == b;
    } else {
      assert (a + b)[0] == a[0] && (a + b)[1..] == a[1..] + b;
      ConcatJoins(a[1..], b);
    }
  }

  lemma OneSpelt(tag: byte, value: seq<byte>)
    ensures Concat([EncodedField(tag, value)]) == Spelt(tag, value)
  {
    assert [EncodedField(tag, value)][1..] == [];
  }

  lemma SlotIsSpelt(slot: BodySlot, inlineTag: byte, referenceTag: byte)
    ensures Concat(SlotFields(slot, inlineTag, referenceTag)) == SpeltSlot(slot, inlineTag, referenceTag)
  {
    var inlined := if slot.inline.Some? then [EncodedField(inlineTag, slot.inline.value)] else [];
    var referred := if slot.reference.Some? then [EncodedField(referenceTag, EncodeBodyReference(slot.reference.value))] else [];
    ConcatJoins(inlined, referred);
    if slot.inline.Some? { OneSpelt(inlineTag, slot.inline.value); }
    if slot.reference.Some? { OneSpelt(referenceTag, EncodeBodyReference(slot.reference.value)); }
  }

  lemma BodiesAreSpelt(env: Envelope)
    requires env.kind == KIND_PUBLIC_EVENT || env.kind == KIND_RUNTIME_CONTROL
    ensures Concat(EnvelopeFields(env)) == SpeltBody(env)
  {
    OneSpelt(1, if env.kind == KIND_PUBLIC_EVENT then env.eventID else env.recordID);
    SlotIsSpelt(env.public, 2, 3);
    SlotIsSpelt(env.runtime, 4, 5);
    var identity := [EncodedField(1, if env.kind == KIND_PUBLIC_EVENT then env.eventID else env.recordID)];
    var public, runtime := SlotFields(env.public, 2, 3), SlotFields(env.runtime, 4, 5);
    ConcatJoins(identity, public);
    ConcatJoins(identity + public, runtime);
    ConcatJoins(identity, runtime);
  }

  lemma TwoSpelt(a: EncodedField, b: EncodedField)
    ensures Concat([a, b]) == Spelt(a.tag, a.value) + Spelt(b.tag, b.value)
  {
    assert [a, b] == [a] + [b];
    ConcatJoins([a], [b]);
    OneSpelt(a.tag, a.value);
    OneSpelt(b.tag, b.value);
  }

  lemma CommandIsSpelt(env: Envelope, fields: seq<EncodedField>)
    requires fields == [EncodedField(1, env.commandID), EncodedField(6, BigEndian(env.leaseEpoch, 8)),
                        EncodedField(7, env.runtimeCommandID), EncodedField(8, env.commandKind)]
    ensures Concat(fields) == SpeltCommand(env)
  {
    TwoSpelt(fields[0], fields[1]);
    TwoSpelt(fields[2], fields[3]);
    assert fields == [fields[0], fields[1]] + [fields[2], fields[3]];
    ConcatJoins([fields[0], fields[1]], [fields[2], fields[3]]);
  }

  lemma AttemptIsSpelt(env: Envelope, fields: seq<EncodedField>)
    requires fields == [EncodedField(9, env.attemptID), EncodedField(10, BigEndian(env.attemptJournalEpoch, 8)),
                        EncodedField(11, env.dispositionKind)]
    ensures Concat(fields) == SpeltAttempt(env)
  {
    TwoSpelt(fields[0], fields[1]);
    OneSpelt(fields[2].tag, fields[2].value);
    assert fields == [fields[0], fields[1]] + [fields[2]];
    ConcatJoins([fields[0], fields[1]], [fields[2]]);
  }

  lemma CommandsAreSpelt(env: Envelope)
    requires env.kind >= KIND_OPENING_FENCE && KnownKind(env.kind)
    ensures Concat(EnvelopeFields(env)) == SpeltBody(env)
  {
    var fields := EnvelopeFields(env);
    if env.kind == KIND_OPENING_FENCE {
      OneSpelt(6, BigEndian(env.leaseEpoch, 8));
    } else {
      CommandIsSpelt(env, fields[..4]);
      if env.kind == KIND_COMMAND_DISPOSITION {
        AttemptIsSpelt(env, fields[4..]);
        ConcatJoins(fields[..4], fields[4..]);
        assert fields == fields[..4] + fields[4..];
      } else {
        assert fields == fields[..4];
      }
    }
  }

  lemma BodyIsSpelt(rules: CoreRules, env: Envelope)
    requires GoodRecord(rules, env)
    ensures Concat(EnvelopeFields(env)) == SpeltBody(env) && |EnvelopeFields(env)| <= 7
  {
    if env.kind <= KIND_RUNTIME_CONTROL { BodiesAreSpelt(env); } else { CommandsAreSpelt(env); }
  }

  lemma HeaderIsSpelt(kind: byte, count: nat, body: seq<byte>)
    requires count < 0x1_0000 && |body| < 0x1_0000_0000
    ensures var frame := Header(kind, count, |body|) + body;
            && frame[..6] == [76, 82, 74, 69, 1, kind] && frame[12..] == body
            && FromBigEndian(frame[6..8]) == count && FromBigEndian(frame[8..12]) == |body|
  {
    var frame := Header(kind, count, |body|) + body;
    WordSizes();
    BigEndianRoundTrip(count, 2);
    BigEndianRoundTrip(|body|, 4);
    assert frame[6..8] == BigEndian(count, 2) && frame[8..12] == BigEndian(|body|, 4);
    assert Magic() == [76, 82, 74, 69];
  }

  /** A frame is the magic, version 1, the kind, how many fields and how many bytes of
      them, and then each member under its own tag. */
  lemma FrameIsSpelt(rules: CoreRules, env: Envelope, frame: seq<byte>)
    requires Decoded(rules, frame) == Ok(env) && BoundsIdentities(rules)
    ensures frame[..6] == [76, 82, 74, 69, 1, env.kind] && frame[12..] == SpeltBody(env)
    ensures FromBigEndian(frame[6..8]) == |EnvelopeFields(env)| && FromBigEndian(frame[8..12]) == |SpeltBody(env)|
  {
    CodecIsABijection(rules, env, frame);
    ValidExactlyWhen(rules, env);
    BodyIsSpelt(rules, env);
    HeaderIsSpelt(env.kind, |EnvelopeFields(env)|, Concat(EnvelopeFields(env)));
  }

  /** Every good record that fits has a frame, and no frame has two. */
  lemma EncodableExactlyWhen(rules: CoreRules, env: Envelope)
    requires BoundsIdentities(rules)
    ensures (exists frame :: Decoded(rules, frame) == Ok(env)) <==>
              GoodRecord(rules, env) && HEADER_BYTES + |Concat(EnvelopeFields(env))| <= MAX_ENVELOPE_BYTES
  {
    ValidExactlyWhen(rules, env);
    if Encoded(rules, env).Ok? {
      CodecIsABijection(rules, env, Encoded(rules, env).value);
    }
    if frame :| Decoded(rules, frame) == Ok(env) { CodecIsABijection(rules, env, frame); }
  }

  // ---- the codec as its callers see it ------------------------------------------------

  datatype Codec = Codec(encode: Envelope -> Result<seq<byte>, EnvelopeError>, decode: seq<byte> -> Option<Envelope>) {
    /** Two inverse directions, and a fence for every grant there can be. */
    ghost predicate Conforms() {
      && (forall env, frame :: encode(env) == Ok(frame) <==> decode(frame) == Some(env))
      && (forall epoch :: encode(OpeningFence(epoch)).Ok? <==> epoch != 0)
    }
  }

  function EnvelopeV1(rules: CoreRules): Codec {
    Codec((env: Envelope) => Encoded(rules, env), (frame: seq<byte>) => var r := Decoded(rules, frame); if r.Ok? then Some(r.value) else None)
  }

  lemma FenceEncodes(rules: CoreRules, epoch: uint64)
    ensures Encoded(rules, OpeningFence(epoch)).Ok? <==> epoch != 0
  {
    var fields := EnvelopeFields(OpeningFence(epoch));
    assert fields[1..] == [];
    assert |Concat(fields)| == 13;
  }

  lemma EnvelopeV1Conforms(rules: CoreRules)
    requires BoundsIdentities(rules)
    ensures EnvelopeV1(rules).Conforms()
  {
    var codec := EnvelopeV1(rules);
    forall env, frame ensures codec.encode(env) == Ok(frame) <==> codec.decode(frame) == Some(env) {
      CodecIsABijection(rules, env, frame);
    }
    forall epoch ensures codec.encode(OpeningFence(epoch)).Ok? <==> epoch != 0 {
      FenceEncodes(rules, epoch);
    }
  }
}
