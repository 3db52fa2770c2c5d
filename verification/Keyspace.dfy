/** How identities become names: length-prefixed frames under a digest that need not
    be injective, and create-only witnesses that make a collision visible instead of
    shared. The digest is any function at all. */
module Keyspace {
  import opened Wrappers
  import opened Bytes

  const MIN_CONTROL_SHARDS: nat := 1
  const MAX_CONTROL_SHARDS: nat := 4096
  const MARKER_CODEC_VERSION: byte := 2
  const KEY_ALGORITHM_VERSION: byte := 1
  const MARKER_HEADER_BYTES: nat := 11

  datatype KeyspaceError =
    | HashCollision | BindingNotFound | BindingAmbiguous | LayoutMismatch | MarkerMalformed | MarkerAmbiguous
    | BackendFailure | InvalidIdentity | LegacyTenant | LegacySession

  // ---- length-prefixed frames -------------------------------------------------------

  function Prefixed(values: seq<seq<byte>>, width: nat): seq<byte> {
    if values == [] then []
    else Prefixed(values[..|values| - 1], width) + BigEndian(|values[|values| - 1]|, width) + values[|values| - 1]
  }

  function PrefixedFront(values: seq<seq<byte>>, width: nat): seq<byte> {
    if values == [] then [] else BigEndian(|values[0]|, width) + values[0] + PrefixedFront(values[1..], width)
  }

  lemma {:induction false} FrontAppend(values: seq<seq<byte>>, last: seq<byte>, width: nat)
    ensures PrefixedFront(values + [last], width) == PrefixedFront(values, width) + BigEndian(|last|, width) + last
  {
    if values == [] {
      assert ([last])[1..] == [];
    } else {
      assert (values + [last])[1..] == values[1..] + [last];
      FrontAppend(values[1..], last, width);
    }
  }

  lemma {:induction false} SameFrame(values: seq<seq<byte>>, width: nat)
    ensures Prefixed(values, width) == PrefixedFront(values, width)
  {
    if values != [] {
      SameFrame(values[..|values| - 1], width);
      FrontAppend(values[..|values| - 1], values[|values| - 1], width);
      assert values == values[..|values| - 1] + [values[|values| - 1]];
    }
  }

  ghost predicate Fit(values: seq<seq<byte>>, width: nat) { forall i :: 0 <= i < |values| ==> |values[i]| < Pow256(width) }

  lemma FirstValueIsDetermined(values: seq<seq<byte>>, other: seq<seq<byte>>, width: nat)
    requires width > 0 && Fit(values, width) && Fit(other, width) && values != [] && other != []
    requires PrefixedFront(values, width) == PrefixedFront(other, width)
    ensures values[0] == other[0] && PrefixedFront(values[1..], width) == PrefixedFront(other[1..], width)
  {
    var a, b, n, m := PrefixedFront(values, width), PrefixedFront(other, width), |values[0]|, |other[0]|;
    assert a[..width] == BigEndian(n, width) && b[..width] == BigEndian(m, width);
    BigEndianRoundTrip(n, width);
    BigEndianRoundTrip(m, width);
    assert a[width..width + n] == values[0] && b[width..width + m] == other[0];
    assert a[width + n..] == PrefixedFront(values[1..], width) && b[width + m..] == PrefixedFront(other[1..], width);
  }

  lemma {:induction false} FrontIsInjective(values: seq<seq<byte>>, other: seq<seq<byte>>, width: nat)
    requires width > 0 && Fit(values, width) && Fit(other, width)
    requires PrefixedFront(values, width) == PrefixedFront(other, width)
    ensures values == other
  {
    if values != [] && other != [] {
      FirstValueIsDetermined(values, other, width);
      FrontIsInjective(values[1..], other[1..], width);
      assert values == [values[0]] + values[1..] && other == [other[0]] + other[1..];
    }
  }

  /** No two lists of values share a frame, whatever bytes they hold and however
      many they are. */
  lemma FramesAreInjective(values: seq<seq<byte>>, other: seq<seq<byte>>, width: nat)
    requires width > 0 && Fit(values, width) && Fit(other, width)
    ensures Prefixed(values, width) == Prefixed(other, width) <==> values == other
  {
    SameFrame(values, width);
    SameFrame(other, width);
    if Prefixed(values, width) == Prefixed(other, width) { FrontIsInjective(values, other, width); }
  }

  method AppendPrefixed(header: seq<byte>, values: seq<seq<byte>>, width: nat) returns (out: seq<byte>)
    ensures out == header + Prefixed(values, width)
  {
    out := header;
    for i := 0 to |values|
      invariant out == header + Prefixed(values[..i], width)
    {
      assert values[..i + 1][..i] == values[..i];
      out := out + BigEndian(|values[i]|, width);
      out := out + values[i];
    }
    assert values[..|values|] == values;
  }

  function DigestFrameBytes(domain: Text, values: seq<seq<byte>>): seq<byte> { Prefixed([domain] + values, 4) }

  function WitnessBytes(kind: byte, values: seq<seq<byte>>): seq<byte> {
    Ascii("LRWB") + [1, kind] + Prefixed(values, 2)
  }

  method DigestFrame(domain: Text, values: seq<seq<byte>>) returns (out: seq<byte>)
    ensures out == DigestFrameBytes(domain, values)
  {
    out := AppendPrefixed([], [domain] + values, 4);
  }

  method EncodeWitness(kind: byte, values: seq<seq<byte>>) returns (out: seq<byte>)
    ensures out == WitnessBytes(kind, values)
  {
    out := AppendPrefixed(Ascii("LRWB") + [1, kind], values, 2);
  }

  /** One domain and one list of values per frame: no domain can be spelled as another's values. */
  lemma DigestFramesAreInjective(domain: Text, values: seq<seq<byte>>, otherDomain: Text, other: seq<seq<byte>>)
    requires Fit([domain] + values, 4) && Fit([otherDomain] + other, 4)
    ensures DigestFrameBytes(domain, values) == DigestFrameBytes(otherDomain, other) <==> domain == otherDomain && values == other
  {
    FramesAreInjective([domain] + values, [otherDomain] + other, 4);
    if [domain] + values == [otherDomain] + other {
      assert ([domain] + values)[0] == ([otherDomain] + other)[0];
      assert ([domain] + values)[1..] == values && ([otherDomain] + other)[1..] == other;
    }
  }

  lemma WitnessesAreInjective(kind: byte, values: seq<seq<byte>>, otherKind: byte, other: seq<seq<byte>>)
    requires Fit(values, 2) && Fit(other, 2)
    ensures WitnessBytes(kind, values) == WitnessBytes(otherKind, other) <==> kind == otherKind && values == other
  {
    var a, b := WitnessBytes(kind, values), WitnessBytes(otherKind, other);
    assert a[5] == kind && b[5] == otherKind;
    assert a[6..] == Prefixed(values, 2) && b[6..] == Prefixed(other, 2);
    FramesAreInjective(values, other, 2);
  }

  // ---- tokens --------------------------------------------------------------------------

  function HexDigit32(n: nat): byte
    requires n < 32
  {
    if n < 10 then 48 + n else 87 + n
  }

  function Digits32(n: nat, width: nat): (t: Text)
    ensures |t| == width
  {
    if width == 0 then [] else Digits32(n / 32, width - 1) + [HexDigit32(n % 32)]
  }

  /** The digest in lower-case base32hex without padding: 256 bits and four zero
      bits of slack, five to a digit. */
  function Token(sum: Digest32): (t: Text)
    ensures |t| == 52
  {
    Digits32(FromBigEndian(sum) * 16, 52)
  }

  function Pow32(width: nat): nat { if width == 0 then 1 else 32 * Pow32(width - 1) }

  lemma {:induction false} DigitsAreInjective(n: nat, m: nat, width: nat)
    requires n < Pow32(width) && m < Pow32(width) && Digits32(n, width) == Digits32(m, width)
    ensures n == m
  {
    if width > 0 {
      var a, b := Digits32(n, width), Digits32(m, width);
      assert a[..width - 1] == Digits32(n / 32, width - 1) && b[..width - 1] == Digits32(m / 32, width - 1);
      assert a[width - 1] == HexDigit32(n % 32) && b[width - 1] == HexDigit32(m % 32);
      DigitsAreInjective(n / 32, m / 32, width - 1);
    }
  }

  /** Forty bits are five bytes and eight digits. */
  lemma {:induction false} FortyBits(k: nat)
    ensures Pow256(5 * k) == Pow32(8 * k)
  {
    if k > 0 {
      FortyBits(k - 1);
      FiveBytes(5 * (k - 1));
      EightDigits(8 * (k - 1));
    }
  }

  lemma FiveBytes(n: nat)
    ensures Pow256(n + 5) == 0x100_0000_0000 * Pow256(n)
  {
    assert Pow256(n + 3) == 0x100_0000 * Pow256(n) by { assert Pow256(n + 2) == 0x1_0000 * Pow256(n); }
    assert Pow256(n + 4) == 0x1_0000_0000 * Pow256(n);
  }

  lemma EightDigits(n: nat)
    ensures Pow32(n + 8) == 0x100_0000_0000 * Pow32(n)
  {
    assert Pow32(n + 2) == 1024 * Pow32(n);
    assert Pow32(n + 4) == 1024 * 1024 * Pow32(n) by { assert Pow32(n + 4) == 1024 * Pow32(n + 2); }
    assert Pow32(n + 6) == 1024 * Pow32(n + 4);
    assert Pow32(n + 8) == 1024 * Pow32(n + 6);
  }

  lemma TokenFits()
    ensures Pow256(32) * 16 == Pow32(52)
  {
    FortyBits(6);
    assert Pow256(32) == 0x1_0000 * Pow256(30);
    assert Pow32(50) == 1024 * Pow32(48) && Pow32(52) == 1024 * Pow32(50);
  }

  /** A token spells the whole of its digest: no two digests share one. */
  lemma TokensAreInjective(a: Digest32, b: Digest32)
    ensures Token(a) == Token(b) <==> a == b
  {
    if Token(a) == Token(b) {
      FromBigEndianBound(a);
      FromBigEndianBound(b);
      TokenFits();
      DigitsAreInjective(FromBigEndian(a) * 16, FromBigEndian(b) * 16, 52);
      FromBigEndianRoundTrip(a);
      FromBigEndianRoundTrip(b);
    }
  }

  // ---- deriving a session's names -----------------------------------------------------

  datatype Layout = TenantV1 | LegacySingleTenantV1

  /** One store's configuration, and the digest it names things under. */
  datatype Config = Config(layout: Layout, legacyTenant: Text, shards: nat, digest: seq<byte> -> Digest32, validID: Text -> bool)

  datatype Identity = Identity(tenant: Text, session: Text)

  /** Empty witnesses for the legacy layout, whose names are the identities. */
  datatype SessionScope = SessionScope(
    namespace: Text,
    tenantWitnessKey: Text,
    tenantWitness: seq<byte>,
    sessionWitnessKey: Text,
    sessionWitness: seq<byte>)

  predicate LegacyByteAt(c: byte, i: nat) {
    if i == 8 || i == 13 || i == 18 || i == 23 then c == 45 else 48 <= c <= 57 || 97 <= c <= 102
  }

  predicate CanonicalLegacySession(id: Text) { |id| == 36 && forall i :: 0 <= i < 36 ==> LegacyByteAt(id[i], i) }

  function WitnessKey(kind: Text, token: Text): Text { Ascii("sessionstore/witnesses/") + kind + Ascii("/") + token }

  /** What is digested for a tenant, and for a session. */
  function TenantFrame(tenant: Text): seq<byte> { DigestFrameBytes(Ascii("looprig/sessionstore/key/v1/tenant"), [tenant]) }

  function SessionFrame(id: Identity): seq<byte> {
    DigestFrameBytes(Ascii("looprig/sessionstore/key/v1/session"), [id.tenant, id.session])
  }

  function TenantToken(c: Config, tenant: Text): Text { Token(c.digest(TenantFrame(tenant))) }

  function SessionToken(c: Config, id: Identity): Text { Token(c.digest(SessionFrame(id))) }

  function DeriveSessionScope(c: Config, id: Identity): Result<SessionScope, KeyspaceError> {
    if !c.validID(id.tenant) then Err(InvalidIdentity)
    else if c.layout.LegacySingleTenantV1? && id.tenant != c.legacyTenant then Err(LegacyTenant)
    else if !c.validID(id.session) then Err(InvalidIdentity)
    else if c.layout.LegacySingleTenantV1? then
      if !CanonicalLegacySession(id.session) then Err(LegacySession)
      else Ok(SessionScope(Ascii("sessions/") + id.session, [], [], [], []))
    else
      var tenant, session := TenantToken(c, id.tenant), SessionToken(c, id);
      Ok(SessionScope(
        Ascii("tenants/") + tenant + Ascii("/sessions/") + session,
        WitnessKey(Ascii("tenant"), tenant), WitnessBytes(1, [id.tenant]),
        WitnessKey(Ascii("session"), session), WitnessBytes(2, [id.tenant, id.session])))
  }

  // ---- the key-value store --------------------------------------------------------------

  type Store = map<Text, seq<byte>>

  function VerifyWitness(kv: Store, key: Text, want: seq<byte>): Option<KeyspaceError> {
    if key !in kv then Some(BindingNotFound) else if kv[key] != want then Some(HashCollision) else None
  }

  function VerifySessionScope(c: Config, kv: Store, scope: SessionScope): Option<KeyspaceError> {
    if c.layout.LegacySingleTenantV1? then None
    else FirstOf(VerifyWitness(kv, scope.tenantWitnessKey, scope.tenantWitness),
                 VerifyWitness(kv, scope.sessionWitnessKey, scope.sessionWitness))
  }

  predicate Verified(c: Config, kv: Store, id: Identity) {
    var scope := DeriveSessionScope(c, id);
    scope.Ok? && VerifySessionScope(c, kv, scope.value).None?
  }

  ghost predicate Grows(kv: Store, later: Store) { forall k :: k in kv ==> k in later && later[k] == kv[k] }

  /** What the provider does with a put that races another process, or fails. */
  datatype Race = Race(intruder: Option<seq<byte>>, getFails: bool, putFails: bool, putLanded: bool, againFails: bool)

  class KeyValues {
    var entries: Store

    constructor () ensures entries == map[] { entries := map[]; }

    method Get(key: Text) returns (r: Option<seq<byte>>)
      ensures r == if key in entries then Some(entries[key]) else None
    {
      r := if key in entries then Some(entries[key]) else None;
    }

    /** Create-only: an existing value is never replaced. */
    method Put(key: Text, value: seq<byte>) returns (created: bool)
      modifies this
      ensures created <==> key !in old(entries)
      ensures entries == if created then old(entries)[key := value] else old(entries)
    {
      created := key !in entries;
      if created {
        entries := entries[key := value];
      }
    }
  }

  /** Creates the witness, or finds it there already. Between the read and the put
      another process may create anything under the same key. */
  method BindWitness(kv: KeyValues, key: Text, want: seq<byte>, race: Race) returns (r: Option<KeyspaceError>)
    modifies kv
    ensures Grows(old(kv.entries), kv.entries)
    ensures forall k :: k in kv.entries && k != key ==> k in old(kv.entries)
    ensures r.None? ==> VerifyWitness(kv.entries, key, want).None?
    ensures r == Some(HashCollision) ==> VerifyWitness(kv.entries, key, want) == Some(HashCollision)
    ensures r.Some? ==> r.value == HashCollision || r.value == BackendFailure
    ensures !race.getFails && !race.putFails && !race.againFails && race.intruder.None? ==>
              (r.None? <==> key !in old(kv.entries) || old(kv.entries)[key] == want)
  {
    if race.getFails {
      return Some(BackendFailure);
    }
    var got := kv.Get(key);
    if got.Some? {
      return if got.value == want then None else Some(HashCollision);
    }
    if race.intruder.Some? {
      var landed := kv.Put(key, race.intruder.value);
    }
    if race.putFails {
      if race.putLanded {
        var landed := kv.Put(key, want);
      }
      return Some(BackendFailure);
    }
    var created := kv.Put(key, want);
    if created {
      return None;
    }
    if race.againFails {
      return Some(BackendFailure);
    }
    got := kv.Get(key);
    r := if got.value == want then None else Some(HashCollision);
  }

  predicate Undisturbed(race: Race) { !race.getFails && !race.putFails && !race.againFails && race.intruder.None? }

  predicate FreeOrHeld(kv: Store, key: Text, want: seq<byte>) { key in kv ==> kv[key] == want }

  method BindSessionScope(c: Config, kv: KeyValues, scope: SessionScope, tenantRace: Race, sessionRace: Race)
    returns (r: Option<KeyspaceError>)
    modifies kv
    ensures Grows(old(kv.entries), kv.entries)
    ensures r.None? ==> VerifySessionScope(c, kv.entries, scope).None?
    ensures Undisturbed(tenantRace) && Undisturbed(sessionRace) && c.layout.TenantV1? && scope.tenantWitnessKey != scope.sessionWitnessKey ==>
              (r.None? <==> FreeOrHeld(old(kv.entries), scope.tenantWitnessKey, scope.tenantWitness)
                            && FreeOrHeld(old(kv.entries), scope.sessionWitnessKey, scope.sessionWitness))
    ensures c.layout.LegacySingleTenantV1? ==> r.None? && kv.entries == old(kv.entries)
  {
    if c.layout.LegacySingleTenantV1? {
      return None;
    }
    r := BindWitness(kv, scope.tenantWitnessKey, scope.tenantWitness, tenantRace);
    if r.Some? {
      return;
    }
    r := BindWitness(kv, scope.sessionWitnessKey, scope.sessionWitness, sessionRace);
  }

  // ---- the layout marker -----------------------------------------------------------------

  function LayoutByte(layout: Layout): byte { if layout.TenantV1? then 1 else 2 }

  predicate ValidConfig(c: Config) {
    && MIN_CONTROL_SHARDS <= c.shards <= MAX_CONTROL_SHARDS && |c.legacyTenant| < 0x1_0000
    && (c.layout.TenantV1? ==> c.legacyTenant == []) && (c.layout.LegacySingleTenantV1? ==> c.validID(c.legacyTenant))
  }

  function LayoutMarker(c: Config): seq<byte> {
    Ascii("LRKS") + [MARKER_CODEC_VERSION, LayoutByte(c.layout), KEY_ALGORITHM_VERSION] +
    BigEndian(c.shards, 2) + BigEndian(|c.legacyTenant|, 2) + c.legacyTenant
  }

  predicate WellFormedMarker(validID: Text -> bool, data: seq<byte>) {
    && |data| >= MARKER_HEADER_BYTES && data[..4] == Ascii("LRKS")
    && data[4] == MARKER_CODEC_VERSION && data[6] == KEY_ALGORITHM_VERSION
    && MIN_CONTROL_SHARDS <= FromBigEndian(data[7..9]) <= MAX_CONTROL_SHARDS
    && |data| == MARKER_HEADER_BYTES + FromBigEndian(data[9..11])
    && (data[5] == 1 || data[5] == 2)
    && (data[5] == 1 ==> FromBigEndian(data[9..11]) == 0) && (data[5] == 2 ==> validID(data[MARKER_HEADER_BYTES..]))
  }

  lemma MarkerParts(c: Config)
    requires ValidConfig(c)
    ensures WellFormedMarker(c.validID, LayoutMarker(c))
    ensures LayoutMarker(c)[5] == LayoutByte(c.layout) && FromBigEndian(LayoutMarker(c)[7..9]) == c.shards
    ensures LayoutMarker(c)[MARKER_HEADER_BYTES..] == c.legacyTenant
  {
    var m := LayoutMarker(c);
    WordSizes();
    BigEndianRoundTrip(c.shards, 2);
    BigEndianRoundTrip(|c.legacyTenant|, 2);
    assert m[..4] == Ascii("LRKS");
    assert m[7..9] == BigEndian(c.shards, 2) && m[9..11] == BigEndian(|c.legacyTenant|, 2);
    assert m[11..] == c.legacyTenant;
  }

  function CompareMarker(c: Config, got: seq<byte>): Option<KeyspaceError> {
    if !WellFormedMarker(c.validID, got) then Some(MarkerMalformed)
    else if got != LayoutMarker(c) then Some(LayoutMismatch) else None
  }

  function MarkerKey(): Text { Ascii("sessionstore/layout") }

  method Initialize(c: Config, kv: KeyValues, race: Race) returns (r: Option<KeyspaceError>)
    requires ValidConfig(c)
    modifies kv
    ensures Grows(old(kv.entries), kv.entries)
    ensures r.None? ==> MarkerKey() in kv.entries && kv.entries[MarkerKey()] == LayoutMarker(c)
    ensures r == Some(LayoutMismatch) ==> MarkerKey() in kv.entries && kv.entries[MarkerKey()] != LayoutMarker(c)
    ensures Undisturbed(race) ==>
              (r.None? <==> FreeOrHeld(old(kv.entries), MarkerKey(), LayoutMarker(c)))
              && (r == Some(MarkerMalformed) <==>
                    MarkerKey() in old(kv.entries) && !WellFormedMarker(c.validID, old(kv.entries)[MarkerKey()]))
    ensures r == Some(BackendFailure) ==> !Undisturbed(race)
  {
    MarkerParts(c);
    if race.getFails {
      return Some(BackendFailure);
    }
    var got := kv.Get(MarkerKey());
    if got.Some? {
      return CompareMarker(c, got.value);
    }
    if race.intruder.Some? {
      var landed := kv.Put(MarkerKey(), race.intruder.value);
    }
    if race.putFails {
      if race.putLanded {
        var landed := kv.Put(MarkerKey(), LayoutMarker(c));
      }
      return Some(BackendFailure);
    }
    var created := kv.Put(MarkerKey(), LayoutMarker(c));
    if created {
      return None;
    }
    if race.againFails {
      return Some(BackendFailure);
    }
    got := kv.Get(MarkerKey());
    r := CompareMarker(c, got.value);
  }

  /** Every two successful opens of one backend, at any two moments of its life,
      agree on layout, tenant and shard count. */
  lemma OpensAgree(c: Config, d: Config, kv: Store, later: Store)
    requires ValidConfig(c) && ValidConfig(d) && Grows(kv, later)
    requires MarkerKey() in kv && kv[MarkerKey()] == LayoutMarker(c)
    requires MarkerKey() in later && later[MarkerKey()] == LayoutMarker(d)
    ensures c.layout == d.layout && c.legacyTenant == d.legacyTenant && c.shards == d.shards
  {
    MarkerParts(c);
    MarkerParts(d);
  }

  /** A session has a scope exactly when its identities are valid ones, and under the legacy
      layout the one tenant's own canonical session. */
  lemma ScopeExactlyWhen(c: Config, id: Identity)
    ensures var scope := DeriveSessionScope(c, id);
            && (scope.Ok? <==>
                  && c.validID(id.tenant) && c.validID(id.session)
                  && (c.layout.LegacySingleTenantV1? ==> id.tenant == c.legacyTenant && CanonicalLegacySession(id.session)))
            && (scope == Err(LegacyTenant) <==> c.validID(id.tenant) && c.layout.LegacySingleTenantV1? && id.tenant != c.legacyTenant)
  {
  }

  /** Where names are digests a scope's two witnesses are its identities', kept under keys
      of their own that no choice of digest can make one. */
  lemma ScopeWitnesses(c: Config, id: Identity)
    requires c.layout.TenantV1? && DeriveSessionScope(c, id).Ok?
    ensures var scope := DeriveSessionScope(c, id).value;
            && scope.tenantWitness == WitnessBytes(1, [id.tenant]) && scope.sessionWitness == WitnessBytes(2, [id.tenant, id.session])
            && scope.tenantWitnessKey != scope.sessionWitnessKey
  {
    var tenant, session := TenantToken(c, id.tenant), SessionToken(c, id);
    assert WitnessKey(Ascii("tenant"), tenant)[23] == 116 && WitnessKey(Ascii("session"), session)[23] == 115;
  }

  /** Two identities share a session name only where the digest itself collides: what is
      digested for each names it and no other, and nothing digested for a session is ever
      digested for a tenant. */
  lemma NamesCollideOnlyWithTheDigest(c: Config, id: Identity, other: Identity)
    requires |id.tenant| < 0x1_0000_0000 && |id.session| < 0x1_0000_0000 && |other.tenant| < 0x1_0000_0000 && |other.session| < 0x1_0000_0000
    ensures SessionFrame(id) == SessionFrame(other) <==> id == other
    ensures TenantFrame(id.tenant) == TenantFrame(other.tenant) <==> id.tenant == other.tenant
    ensures SessionFrame(id) != TenantFrame(other.tenant)
    ensures SessionToken(c, id) == SessionToken(c, other) <==> c.digest(SessionFrame(id)) == c.digest(SessionFrame(other))
  {
    var s, t := Ascii("looprig/sessionstore/key/v1/session"), Ascii("looprig/sessionstore/key/v1/tenant");
    WordSizes();
    TokensAreInjective(c.digest(SessionFrame(id)), c.digest(SessionFrame(other)));
    DigestFramesAreInjective(s, [id.tenant, id.session], s, [other.tenant, other.session]);
    DigestFramesAreInjective(t, [id.tenant], t, [other.tenant]);
    DigestFramesAreInjective(s, [id.tenant, id.session], t, [other.tenant]);
    assert [id.tenant, id.session] == [other.tenant, other.session] <==> id == other by {
      assert [id.tenant, id.session][0] == id.tenant && [id.tenant, id.session][1] == id.session;
    }
    assert [id.tenant][0] == id.tenant;
    assert |s| != |t|;
  }

  // ---- a namespace has one owner ------------------------------------------------------------

  /** Fixed-width tokens: a namespace spells its own two tokens. */
  lemma NamespaceSpellsTokens(t: Text, s: Text, u: Text, v: Text)
    requires |t| == |u| == 52 && |s| == |v| == 52
    requires Ascii("tenants/") + t + Ascii("/sessions/") + s == Ascii("tenants/") + u + Ascii("/sessions/") + v
    ensures t == u && s == v
  {
    var a, b := Ascii("tenants/") + t + Ascii("/sessions/") + s, Ascii("tenants/") + u + Ascii("/sessions/") + v;
    assert a[8..60] == t && b[8..60] == u;
    assert a[70..] == s && b[70..] == v;
  }

  lemma SessionWitnessNamesOne(id: Identity, other: Identity)
    requires |id.tenant| < 0x1_0000 && |id.session| < 0x1_0000 && |other.tenant| < 0x1_0000 && |other.session| < 0x1_0000
    requires WitnessBytes(2, [id.tenant, id.session]) == WitnessBytes(2, [other.tenant, other.session])
    ensures id == other
  {
    WordSizes();
    WitnessesAreInjective(2, [id.tenant, id.session], 2, [other.tenant, other.session]);
    assert [id.tenant, id.session][0] == [other.tenant, other.session][0];
    assert [id.tenant, id.session][1] == [other.tenant, other.session][1];
  }

  /** For any digest whatever, colliding or not, and at any two moments: two
      identities that derive one session namespace never both verify. */
  lemma NamespacesAreNeverShared(c: Config, kv: Store, later: Store, id: Identity, other: Identity)
    requires Grows(kv, later) && Verified(c, kv, id) && Verified(c, later, other)
    requires forall t :: c.validID(t) ==> |t| < 0x1_0000
    requires DeriveSessionScope(c, id).value.namespace == DeriveSessionScope(c, other).value.namespace
    ensures id == other
  {
    var scope, second := DeriveSessionScope(c, id).value, DeriveSessionScope(c, other).value;
    if c.layout.LegacySingleTenantV1? {
      assert scope.namespace[9..] == id.session && second.namespace[9..] == other.session;
    } else {
      NamespaceSpellsTokens(TenantToken(c, id.tenant), SessionToken(c, id), TenantToken(c, other.tenant), SessionToken(c, other));
      assert later[scope.sessionWitnessKey] == kv[scope.sessionWitnessKey];
      SessionWitnessNamesOne(id, other);
    }
  }

  /** Racing processes, as the store sees them: create-only puts, in any order. */
  datatype Put = Put(key: Text, value: seq<byte>)

  function AfterPuts(kv: Store, puts: seq<Put>): Store {
    if puts == [] then kv
    else
      var before, p := AfterPuts(kv, puts[..|puts| - 1]), puts[|puts| - 1];
      if p.key in before then before else before[p.key := p.value]
  }

  lemma {:induction false} PutsOnlyGrow(kv: Store, puts: seq<Put>, n: nat)
    requires n <= |puts|
    ensures Grows(AfterPuts(kv, puts[..n]), AfterPuts(kv, puts))
    decreases |puts|
  {
    if n == |puts| {
      assert puts[..n] == puts;
    } else {
      assert puts[..|puts| - 1][..n] == puts[..n];
      PutsOnlyGrow(kv, puts[..|puts| - 1], n);
    }
  }

  lemma VerifiedStays(c: Config, kv: Store, later: Store, id: Identity)
    requires Grows(kv, later) && Verified(c, kv, id)
    ensures Verified(c, later, id)
  {
  }

  lemma OneOwner(c: Config, kv: Store, later: Store, id: Identity, other: Identity)
    requires Grows(kv, later) && Verified(c, kv, id) && other != id && DeriveSessionScope(c, other).Ok?
    requires forall t :: c.validID(t) ==> |t| < 0x1_0000
    requires DeriveSessionScope(c, id).value.namespace == DeriveSessionScope(c, other).value.namespace
    ensures !Verified(c, later, other)
  {
    if Verified(c, later, other) { NamespacesAreNeverShared(c, kv, later, id, other); }
  }

  /** The same over any history of racing binds: whoever verified first owns the
      namespace for good. */
  lemma TheFirstOwnerIsTheOnlyOne(c: Config, kv: Store, puts: seq<Put>, n: nat, id: Identity, other: Identity)
    requires n <= |puts| && (forall t :: c.validID(t) ==> |t| < 0x1_0000)
    requires Verified(c, AfterPuts(kv, puts[..n]), id)
    requires DeriveSessionScope(c, other).Ok? && other != id
    requires DeriveSessionScope(c, id).value.namespace == DeriveSessionScope(c, other).value.namespace
    ensures !Verified(c, AfterPuts(kv, puts), other) && Verified(c, AfterPuts(kv, puts), id)
  {
    PutsOnlyGrow(kv, puts, n);
    VerifiedStays(c, AfterPuts(kv, puts[..n]), AfterPuts(kv, puts), id);
    OneOwner(c, AfterPuts(kv, puts[..n]), AfterPuts(kv, puts), id, other);
  }
}
