/** The immutable index beside the blobs: one canonical record per object, created
    once, and read back only under the identities it was written for. */
module ObjectMetadataIndex {
  import opened Wrappers
  import opened Bytes
  import K = Keyspace

  const STRING_BYTES: nat := 256
  const MAX_RECORD_BYTES: nat := 1303
  const FIELDS: nat := 5

  datatype ObjectMetadata = ObjectMetadata(objectID: Text, sizeBytes: uint64, digest: Text, mediaType: Text)

  /** Whose record, and of what kind, a reader asks for. Whether metadata describes
      an object of a kind is the object grammar's business. */
  datatype Ask = Ask(tenant: Text, session: Text, objectID: Text, validFor: ObjectMetadata -> bool)

  datatype MetadataError = Integrity | Backend | Conflict

  function Strings(tenant: Text, session: Text, m: ObjectMetadata): seq<Text> {
    [tenant, session, m.objectID, m.digest, m.mediaType]
  }

  ghost predicate Bounded(values: seq<Text>) { forall i :: 0 <= i < |values| ==> |values[i]| <= STRING_BYTES }

  function Header(size: uint64): (h: seq<byte>)
    ensures |h| == 13
  {
    Ascii("LROM") + [1] + BigEndian(size, 8)
  }

  function RecordBytes(tenant: Text, session: Text, m: ObjectMetadata): seq<byte> {
    Header(m.sizeBytes) + K.Prefixed(Strings(tenant, session, m), 2)
  }

  method EncodeObjectMetadataRecord(tenant: Text, session: Text, m: ObjectMetadata) returns (data: seq<byte>)
    ensures data == RecordBytes(tenant, session, m)
  {
    data := K.AppendPrefixed(Header(m.sizeBytes), Strings(tenant, session, m), 2);
  }

  // ---- taking the fields back -----------------------------------------------------------

  /** The first `count` strings of `rest`, and what is left after them. */
  function TakeStrings(rest: seq<byte>, count: nat): Option<(seq<Text>, seq<byte>)> {
    if count == 0 then Some(([], rest))
    else if |rest| < 2 then None
    else
      var n := FromBigEndian(rest[..2]);
      if n > STRING_BYTES || n > |rest| - 2 then None
      else
        var more := TakeStrings(rest[2 + n..], count - 1);
        if more.None? then None else Some(([rest[2..2 + n]] + more.value.0, more.value.1))
  }

  /** Length, string, and what is left spell the bytes they were taken from. */
  lemma OneStringWasThere(rest: seq<byte>, values: seq<Text>, left: seq<byte>)
    requires |rest| >= 2 && values != []
    requires var n := FromBigEndian(rest[..2]);
             n <= |rest| - 2 && values[0] == rest[2..2 + n] && rest[2 + n..] == K.PrefixedFront(values[1..], 2) + left
    ensures rest == K.PrefixedFront(values, 2) + left
  {
    var n := FromBigEndian(rest[..2]);
    FromBigEndianRoundTrip(rest[..2]);
    assert rest == rest[..2] + rest[2..2 + n] + rest[2 + n..];
  }

  lemma {:induction false} TakenStringsWereThere(rest: seq<byte>, count: nat)
    requires TakeStrings(rest, count).Some?
    ensures var (values, left) := TakeStrings(rest, count).value;
            |values| == count && Bounded(values) && rest == K.PrefixedFront(values, 2) + left
  {
    if count > 0 {
      var n := FromBigEndian(rest[..2]);
      TakenStringsWereThere(rest[2 + n..], count - 1);
      var (values, left) := TakeStrings(rest, count).value;
      assert values[1..] == TakeStrings(rest[2 + n..], count - 1).value.0;
      OneStringWasThere(rest, values, left);
    }
  }

  lemma FirstStringIsTaken(value: Text, tail: seq<byte>, count: nat)
    requires |value| <= STRING_BYTES && TakeStrings(tail, count).Some?
    ensures TakeStrings(BigEndian(|value|, 2) + value + tail, count + 1) ==
              Some(([value] + TakeStrings(tail, count).value.0, TakeStrings(tail, count).value.1))
  {
    var rest, n := BigEndian(|value|, 2) + value + tail, |value|;
    WordSizes();
    BigEndianRoundTrip(n, 2);
    assert rest[..2] == BigEndian(n, 2) && rest[2..2 + n] == value && rest[2 + n..] == tail;
  }

  lemma FrontSplits(values: seq<Text>, left: seq<byte>)
    requires values != []
    ensures K.PrefixedFront(values, 2) + left == BigEndian(|values[0]|, 2) + values[0] + (K.PrefixedFront(values[1..], 2) + left)
    ensures values == [values[0]] + values[1..]
  {
  }

  lemma {:induction false} WrittenStringsAreTaken(values: seq<Text>, left: seq<byte>)
    requires Bounded(values)
    ensures TakeStrings(K.PrefixedFront(values, 2) + left, |values|) == Some((values, left))
  {
    if values == [] {
      assert K.PrefixedFront(values, 2) + left == left;
    } else {
      var tail := K.PrefixedFront(values[1..], 2) + left;
      WrittenStringsAreTaken(values[1..], left);
      FirstStringIsTaken(values[0], tail, |values[1..]|);
      FrontSplits(values, left);
    }
  }

  function Decoded(data: seq<byte>, ask: Ask): Result<ObjectMetadata, MetadataError> {
    if |data| < 13 || |data| > MAX_RECORD_BYTES || data[..5] != Ascii("LROM") + [1] then Err(Integrity)
    else
      var taken := TakeStrings(data[13..], FIELDS);
      if taken.None? || taken.value.1 != [] || |taken.value.0| != FIELDS then Err(Integrity)
      else
        var fields, size := taken.value.0, FromBigEndian(data[5..13]);
        FromBigEndianBound(data[5..13]);
        WordSizes();
        var m := ObjectMetadata(fields[2], size, fields[3], fields[4]);
        if fields[0] != ask.tenant || fields[1] != ask.session || fields[2] != ask.objectID || !ask.validFor(m) then Err(Integrity)
        else Ok(m)
  }

  type Taken = Option<(seq<Text>, seq<byte>)>

  /** What the whole comes to, once `fields` are taken and `more` is still to come. */
  ghost predicate Leaves(whole: Taken, fields: seq<Text>, more: Taken) {
    if more.None? then whole.None? else whole == Some((fields + more.value.0, more.value.1))
  }

  lemma OneStringLess(whole: Taken, fields: seq<Text>, rest: seq<byte>, count: nat)
    requires count > 0 && Leaves(whole, fields, TakeStrings(rest, count)) && |rest| >= 2
    requires var n := FromBigEndian(rest[..2]); n <= STRING_BYTES && n <= |rest| - 2
    ensures var n := FromBigEndian(rest[..2]);
            Leaves(whole, fields + [rest[2..2 + n]], TakeStrings(rest[2 + n..], count - 1))
  {
    var n := FromBigEndian(rest[..2]);
    var more := TakeStrings(rest[2 + n..], count - 1);
    if more.Some? { assert fields + ([rest[2..2 + n]] + more.value.0) == (fields + [rest[2..2 + n]]) + more.value.0; }
  }

  /** The field loop: `rest` shrinks by one length and one string a turn. */
  method TakeFields(data: seq<byte>, count: nat) returns (r: Taken)
    ensures r == TakeStrings(data, count)
  {
    var rest := data;
    var fields: seq<Text> := [];
    ghost var whole := TakeStrings(data, count);
    assert whole.Some? ==> fields + whole.value.0 == whole.value.0;
    for i := 0 to count
      invariant Leaves(whole, fields, TakeStrings(rest, count - i))
    {
      if |rest| < 2 {
        return None;
      }
      var n := FromBigEndian(rest[..2]);
      if n > STRING_BYTES || n > |rest| - 2 {
        return None;
      }
      OneStringLess(whole, fields, rest, count - i);
      fields := fields + [rest[2..2 + n]];
      rest := rest[2 + n..];
    }
    assert fields + [] == fields;
    r := Some((fields, rest));
  }

  method DecodeObjectMetadataRecord(data: seq<byte>, ask: Ask) returns (r: Result<ObjectMetadata, MetadataError>)
    ensures r == Decoded(data, ask)
  {
    if |data| < 13 || |data| > MAX_RECORD_BYTES || data[..5] != Ascii("LROM") + [1] {
      return Err(Integrity);
    }
    var taken := TakeFields(data[13..], FIELDS);
    if taken.None? || taken.value.1 != [] {
      return Err(Integrity);
    }
    TakenStringsWereThere(data[13..], FIELDS);
    FromBigEndianBound(data[5..13]);
    WordSizes();
    var fields := taken.value.0;
    var m := ObjectMetadata(fields[2], FromBigEndian(data[5..13]), fields[3], fields[4]);
    if fields[0] != ask.tenant || fields[1] != ask.session || fields[2] != ask.objectID || !ask.validFor(m) {
      return Err(Integrity);
    }
    r := Ok(m);
  }

  /** A stored record is accepted exactly when it is the canonical record of this
      metadata under the very tenant, session and object asked for. */
  lemma AcceptedExactlyWhenCanonical(data: seq<byte>, ask: Ask, m: ObjectMetadata)
    ensures Decoded(data, ask) == Ok(m) <==>
              && Bounded(Strings(ask.tenant, ask.session, m)) && m.objectID == ask.objectID && ask.validFor(m)
              && data == RecordBytes(ask.tenant, ask.session, m)
  {
    if Decoded(data, ask) == Ok(m) { AcceptedIsCanonical(data, ask); }
    if Bounded(Strings(ask.tenant, ask.session, m)) && m.objectID == ask.objectID && ask.validFor(m) &&
       data == RecordBytes(ask.tenant, ask.session, m) {
      CanonicalIsAccepted(ask, m);
    }
  }

  lemma AcceptedIsCanonical(data: seq<byte>, ask: Ask)
    requires Decoded(data, ask).Ok?
    ensures var m := Decoded(data, ask).value;
            && Bounded(Strings(ask.tenant, ask.session, m)) && m.objectID == ask.objectID && ask.validFor(m)
            && data == RecordBytes(ask.tenant, ask.session, m)
  {
    var m := Decoded(data, ask).value;
    TakenStringsWereThere(data[13..], FIELDS);
    var values := TakeStrings(data[13..], FIELDS).value.0;
    assert values == Strings(ask.tenant, ask.session, m);
    K.SameFrame(values, 2);
    FromBigEndianRoundTrip(data[5..13]);
    assert data[13..] == K.PrefixedFront(values, 2) + [] == K.PrefixedFront(values, 2);
    assert data == data[..5] + data[5..13] + data[13..];
  }

  lemma {:induction false} FrameSize(values: seq<Text>)
    requires Bounded(values)
    ensures |K.PrefixedFront(values, 2)| <= |values| * 258
  {
    if values != [] { FrameSize(values[1..]); }
  }

  lemma RecordParts(tenant: Text, session: Text, m: ObjectMetadata)
    ensures var data := RecordBytes(tenant, session, m);
            && |data| >= 13 && data[..5] == Ascii("LROM") + [1] && FromBigEndian(data[5..13]) == m.sizeBytes
            && data[13..] == K.Prefixed(Strings(tenant, session, m), 2)
  {
    var data := RecordBytes(tenant, session, m);
    WordSizes();
    BigEndianRoundTrip(m.sizeBytes, 8);
    assert data[5..13] == BigEndian(m.sizeBytes, 8);
  }

  lemma StringsAreTaken(tenant: Text, session: Text, m: ObjectMetadata)
    requires Bounded(Strings(tenant, session, m))
    ensures var frame := K.Prefixed(Strings(tenant, session, m), 2);
            TakeStrings(frame, FIELDS) == Some((Strings(tenant, session, m), [])) && |frame| <= FIELDS * 258
  {
    var values := Strings(tenant, session, m);
    K.SameFrame(values, 2);
    FrameSize(values);
    WrittenStringsAreTaken(values, []);
    assert K.PrefixedFront(values, 2) + [] == K.PrefixedFront(values, 2);
  }

  lemma CanonicalIsAccepted(ask: Ask, m: ObjectMetadata)
    requires Bounded(Strings(ask.tenant, ask.session, m)) && m.objectID == ask.objectID && ask.validFor(m)
    ensures Decoded(RecordBytes(ask.tenant, ask.session, m), ask) == Ok(m)
  {
    RecordParts(ask.tenant, ask.session, m);
    StringsAreTaken(ask.tenant, ask.session, m);
  }

  /** Create-only, and any failed create is resolved by one exact read: success means
      the canonical record is there, whoever wrote it. */
  method PersistObjectMetadata(kv: K.KeyValues, key: Text, want: seq<byte>, putAnswered: bool, landed: bool, readFails: bool)
    returns (r: Option<MetadataError>)
    modifies kv
    ensures K.Grows(old(kv.entries), kv.entries)
    ensures r.None? ==> key in kv.entries && kv.entries[key] == want
    ensures r == Some(Conflict) ==> key in kv.entries && kv.entries[key] != want
    ensures putAnswered && !readFails ==> (r.None? <==> key !in old(kv.entries) || old(kv.entries)[key] == want)
  {
    var created := false;
    if putAnswered || landed {
      created := kv.Put(key, want);
    }
    if putAnswered && created {
      return None;
    }
    if readFails {
      return Some(Backend);
    }
    var got := kv.Get(key);
    if got.None? {
      return Some(Backend);
    }
    r := if got.value == want then None else Some(Conflict);
  }
}
