/** The opaque cursors this store hands out: a fixed envelope in the unpadded URL
    alphabet of RFC 4648 section 5, accepted back only in the exact spelling that
    was issued. */
module Cursors {
  import opened Wrappers
  import opened Bytes

  // ---- base64url without padding ---------------------------------------------------

  type sextet = n: int | 0 <= n < 64

  function Digit(n: sextet): (c: byte)
    ensures c != 10 && c != 13
  {
    if n < 26 then 65 + n else if n < 52 then 71 + n else if n < 62 then n - 4 else if n == 62 then 45 else 95
  }

  function DigitValue(c: byte): Option<sextet> {
    if 65 <= c <= 90 then Some(c - 65)
    else if 97 <= c <= 122 then Some(c - 71)
    else if 48 <= c <= 57 then Some(c + 4)
    else if c == 45 then Some(62)
    else if c == 95 then Some(63)
    else None
  }

  lemma DigitRoundTrip(n: sextet)
    ensures DigitValue(Digit(n)) == Some(n)
  {
  }

  function Sextet1(x: byte): sextet { x / 4 }
  function Sextet2(x: byte, y: byte): sextet { x % 4 * 16 + y / 16 }
  function Sextet3(y: byte, z: byte): sextet { y % 16 * 4 + z / 64 }
  function Sextet4(z: byte): sextet { z % 64 }

  function Base64(bytes: seq<byte>): Text {
    if |bytes| == 0 then []
    else if |bytes| == 1 then [Digit(Sextet1(bytes[0])), Digit(Sextet2(bytes[0], 0))]
    else if |bytes| == 2 then
      [Digit(Sextet1(bytes[0])), Digit(Sextet2(bytes[0], bytes[1])), Digit(Sextet3(bytes[1], 0))]
    else
      [Digit(Sextet1(bytes[0])), Digit(Sextet2(bytes[0], bytes[1])), Digit(Sextet3(bytes[1], bytes[2])), Digit(Sextet4(bytes[2]))] +
      Base64(bytes[3..])
  }

  /** Line breaks anywhere are skipped. */
  function WithoutLineBreaks(text: Text): Text {
    if text == [] then []
    else if text[0] == 10 || text[0] == 13 then WithoutLineBreaks(text[1..])
    else [text[0]] + WithoutLineBreaks(text[1..])
  }

  function FirstByte(a: sextet, b: sextet): byte { a * 4 + b / 16 }
  function SecondByte(b: sextet, c: sextet): byte { b % 16 * 16 + c / 4 }
  function ThirdByte(c: sextet, d: sextet): byte { c % 4 * 64 + d }

  /** The library's decoder is lenient: it drops the slack bits of a short final
      group, so several spellings decode to the same bytes. */
  function FromBase64Groups(text: Text): Option<seq<byte>> {
    if |text| == 0 then Some([])
    else if |text| == 1 then None
    else
      var a, b := DigitValue(text[0]), DigitValue(text[1]);
      if a.None? || b.None? then None
      else if |text| == 2 then Some([FirstByte(a.value, b.value)])
      else
        var c := DigitValue(text[2]);
        if c.None? then None
        else if |text| == 3 then Some([FirstByte(a.value, b.value), SecondByte(b.value, c.value)])
        else
          var d, rest := DigitValue(text[3]), FromBase64Groups(text[4..]);
          if d.None? || rest.None? then None
          else Some([FirstByte(a.value, b.value), SecondByte(b.value, c.value), ThirdByte(c.value, d.value)] + rest.value)
  }

  function FromBase64(text: Text): Option<seq<byte>> { FromBase64Groups(WithoutLineBreaks(text)) }

  /** The decoder's own estimate of what a text decodes to. */
  function DecodedLen(n: nat): nat { n * 6 / 8 }

  lemma {:induction false} Base64Length(bytes: seq<byte>)
    ensures DecodedLen(|Base64(bytes)|) == |bytes|
  {
    if |bytes| >= 3 { Base64Length(bytes[3..]); }
  }

  lemma {:induction false} Base64HasNoLineBreaks(bytes: seq<byte>)
    ensures WithoutLineBreaks(Base64(bytes)) == Base64(bytes)
  {
    forall i | 0 <= i < |Base64(bytes)| ensures Base64(bytes)[i] != 10 && Base64(bytes)[i] != 13 { DigitsOnly(bytes, i); }
    NothingSkipped(Base64(bytes));
  }

  lemma {:induction false} DigitsOnly(bytes: seq<byte>, i: nat)
    requires i < |Base64(bytes)|
    ensures Base64(bytes)[i] != 10 && Base64(bytes)[i] != 13
  {
    if |bytes| >= 3 && i >= 4 { DigitsOnly(bytes[3..], i - 4); }
  }

  lemma {:induction false} NothingSkipped(text: Text)
    requires forall i :: 0 <= i < |text| ==> text[i] != 10 && text[i] != 13
    ensures WithoutLineBreaks(text) == text
  {
    if text != [] { NothingSkipped(text[1..]); }
  }

  lemma FirstBack(x: byte, y: byte)
    ensures FirstByte(Sextet1(x), Sextet2(x, y)) == x
  {
    assert (x % 4 * 16 + y / 16) / 16 == x % 4;
  }

  lemma SecondBack(x: byte, y: byte, z: byte)
    ensures SecondByte(Sextet2(x, y), Sextet3(y, z)) == y
  {
    assert (x % 4 * 16 + y / 16) % 16 == y / 16;
    assert (y % 16 * 4 + z / 64) / 4 == y % 16;
  }

  lemma ThirdBack(y: byte, z: byte)
    ensures ThirdByte(Sextet3(y, z), Sextet4(z)) == z
  {
    assert (y % 16 * 4 + z / 64) % 4 == z / 64;
  }

  lemma FullGroup(a: sextet, b: sextet, c: sextet, d: sextet, rest: Text)
    requires FromBase64Groups(rest).Some?
    ensures FromBase64Groups([Digit(a), Digit(b), Digit(c), Digit(d)] + rest) ==
              Some([FirstByte(a, b), SecondByte(b, c), ThirdByte(c, d)] + FromBase64Groups(rest).value)
  {
    DigitRoundTrip(a);
    DigitRoundTrip(b);
    DigitRoundTrip(c);
    DigitRoundTrip(d);
    assert ([Digit(a), Digit(b), Digit(c), Digit(d)] + rest)[4..] == rest;
  }

  lemma ShortGroup(a: sextet, b: sextet, c: sextet)
    ensures FromBase64Groups([Digit(a), Digit(b)]) == Some([FirstByte(a, b)])
    ensures FromBase64Groups([Digit(a), Digit(b), Digit(c)]) == Some([FirstByte(a, b), SecondByte(b, c)])
  {
    DigitRoundTrip(a);
    DigitRoundTrip(b);
    DigitRoundTrip(c);
  }

  lemma OneByteRoundTrip(x: byte)
    ensures FromBase64Groups(Base64([x])) == Some([x])
  {
    FirstBack(x, 0);
    assert Base64([x]) == [Digit(Sextet1(x)), Digit(Sextet2(x, 0))];
    ShortGroup(Sextet1(x), Sextet2(x, 0), 0);
  }

  lemma TwoBytesRoundTrip(x: byte, y: byte)
    ensures FromBase64Groups(Base64([x, y])) == Some([x, y])
  {
    FirstBack(x, y);
    SecondBack(x, y, 0);
    assert Base64([x, y]) == [Digit(Sextet1(x)), Digit(Sextet2(x, y)), Digit(Sextet3(y, 0))];
    ShortGroup(Sextet1(x), Sextet2(x, y), Sextet3(y, 0));
  }

  lemma LongRoundTrip(x: byte, y: byte, z: byte, rest: seq<byte>)
    requires FromBase64Groups(Base64(rest)) == Some(rest)
    ensures FromBase64Groups(Base64([x, y, z] + rest)) == Some([x, y, z] + rest)
  {
    FirstBack(x, y);
    SecondBack(x, y, z);
    ThirdBack(y, z);
    FullGroup(Sextet1(x), Sextet2(x, y), Sextet3(y, z), Sextet4(z), Base64(rest));
    assert ([x, y, z] + rest)[3..] == rest;
  }

  lemma {:induction false} GroupsRoundTrip(bytes: seq<byte>)
    ensures FromBase64Groups(Base64(bytes)) == Some(bytes)
  {
    if |bytes| >= 3 {
      GroupsRoundTrip(bytes[3..]);
      LongRoundTrip(bytes[0], bytes[1], bytes[2], bytes[3..]);
      assert bytes == [bytes[0], bytes[1], bytes[2]] + bytes[3..];
    } else if |bytes| == 2 {
      TwoBytesRoundTrip(bytes[0], bytes[1]);
      assert bytes == [bytes[0], bytes[1]];
    } else if |bytes| == 1 {
      OneByteRoundTrip(bytes[0]);
      assert bytes == [bytes[0]];
    }
  }

  lemma Base64RoundTrip(bytes: seq<byte>)
    ensures FromBase64(Base64(bytes)) == Some(bytes)
  {
    Base64HasNoLineBreaks(bytes);
    GroupsRoundTrip(bytes);
  }

  lemma DigitIsItsOwn(c: byte, n: sextet)
    ensures DigitValue(c) == Some(n) <==> c == Digit(n)
  {
  }

  /** The spellings of `bytes` without line breaks: full groups are Base64's own, and a
      short final group may end in any digit that agrees with its own but for the bits
      the bytes do not reach. */
  predicate LooselySpells(text: Text, bytes: seq<byte>)
    decreases |bytes|
  {
    if |bytes| == 0 then text == []
    else if |bytes| == 1 then
      |text| == 2 && text[0] == Digit(Sextet1(bytes[0])) && EndsLike(text[1], Sextet2(bytes[0], 0), 16)
    else if |bytes| == 2 then
      && |text| == 3 && text[0] == Digit(Sextet1(bytes[0])) && text[1] == Digit(Sextet2(bytes[0], bytes[1]))
      && EndsLike(text[2], Sextet3(bytes[1], 0), 4)
    else |text| >= 4 && text[..4] == Base64(bytes[..3]) && LooselySpells(text[4..], bytes[3..])
  }

  /** Any digit with the same leading bits. */
  predicate EndsLike(c: byte, n: sextet, slack: nat)
    requires slack > 0
  {
    DigitValue(c).Some? && DigitValue(c).value / slack == n / slack
  }

  lemma FirstByteIs(a: sextet, b: sextet, x: byte)
    ensures FirstByte(a, b) == x <==> a == Sextet1(x) && b / 16 == Sextet2(x, 0) / 16
  {
  }

  lemma ShortPairSpells(text: Text, x: byte)
    requires |text| == 2
    ensures FromBase64Groups(text) == Some([x]) <==> LooselySpells(text, [x])
  {
    if DigitValue(text[0]).Some? && DigitValue(text[1]).Some? {
      FirstByteIs(DigitValue(text[0]).value, DigitValue(text[1]).value, x);
    }
    DigitIsItsOwn(text[0], Sextet1(x));
  }

  lemma TwoBytesAre(a: sextet, b: sextet, c: sextet, x: byte, y: byte)
    ensures FirstByte(a, b) == x && SecondByte(b, c) == y <==> a == Sextet1(x) && b == Sextet2(x, y) && c / 4 == Sextet3(y, 0) / 4
  {
    FirstByteIs(a, b, x);
    assert b % 16 * 16 + c / 4 == y <==> b % 16 == y / 16 && c / 4 == y % 16;
    assert Sextet2(x, y) / 16 == x % 4 && Sextet2(x, y) % 16 == y / 16 && Sextet2(x, 0) / 16 == x % 4;
    assert Sextet3(y, 0) / 4 == y % 16;
  }

  lemma ShortTripleSpells(text: Text, x: byte, y: byte)
    requires |text| == 3
    ensures FromBase64Groups(text) == Some([x, y]) <==> LooselySpells(text, [x, y])
  {
    var a, b, c := DigitValue(text[0]), DigitValue(text[1]), DigitValue(text[2]);
    if a.Some? && b.Some? && c.Some? { TwoBytesAre(a.value, b.value, c.value, x, y); }
    DigitIsItsOwn(text[0], Sextet1(x));
    DigitIsItsOwn(text[1], Sextet2(x, y));
  }

  lemma ThreeBytesAre(a: sextet, b: sextet, c: sextet, d: sextet, x: byte, y: byte, z: byte)
    ensures FirstByte(a, b) == x && SecondByte(b, c) == y && ThirdByte(c, d) == z <==>
              a == Sextet1(x) && b == Sextet2(x, y) && c == Sextet3(y, z) && d == Sextet4(z)
  {
    TwoBytesAre(a, b, c, x, y);
    assert c % 4 * 64 + d == z <==> c % 4 == z / 64 && d == z % 64;
    assert Sextet3(y, z) / 4 == y % 16 && Sextet3(y, z) % 4 == z / 64 && Sextet3(y, 0) / 4 == y % 16;
  }

  lemma GroupDigits(text: Text, x: byte, y: byte, z: byte)
    requires |text| >= 4
    ensures text[..4] == Base64([x, y, z]) <==>
              && DigitValue(text[0]) == Some(Sextet1(x)) && DigitValue(text[1]) == Some(Sextet2(x, y))
              && DigitValue(text[2]) == Some(Sextet3(y, z)) && DigitValue(text[3]) == Some(Sextet4(z))
  {
    GroupOf(x, y, z);
    DigitIsItsOwn(text[0], Sextet1(x));
    DigitIsItsOwn(text[1], Sextet2(x, y));
    DigitIsItsOwn(text[2], Sextet3(y, z));
    DigitIsItsOwn(text[3], Sextet4(z));
    assert text[..4] == [text[0], text[1], text[2], text[3]];
  }

  /** One full group, whatever follows it. */
  lemma FullGroupSpells(text: Text, x: byte, y: byte, z: byte, rest: seq<byte>)
    requires |text| >= 4
    ensures FromBase64Groups(text) == Some([x, y, z] + rest) <==>
              text[..4] == Base64([x, y, z]) && FromBase64Groups(text[4..]) == Some(rest)
  {
    var a, b, c, d := DigitValue(text[0]), DigitValue(text[1]), DigitValue(text[2]), DigitValue(text[3]);
    var tail := FromBase64Groups(text[4..]);
    GroupDigits(text, x, y, z);
    if a.Some? && b.Some? && c.Some? && d.Some? && tail.Some? {
      ThreeBytesAre(a.value, b.value, c.value, d.value, x, y, z);
      SplitAtThree(FirstByte(a.value, b.value), SecondByte(b.value, c.value), ThirdByte(c.value, d.value), tail.value, x, y, z, rest);
    }
  }

  lemma GroupOf(x: byte, y: byte, z: byte)
    ensures Base64([x, y, z]) == [Digit(Sextet1(x)), Digit(Sextet2(x, y)), Digit(Sextet3(y, z)), Digit(Sextet4(z))]
  {
    assert [x, y, z][3..] == [];
  }

  lemma SplitAtThree(a: byte, b: byte, c: byte, tail: seq<byte>, x: byte, y: byte, z: byte, rest: seq<byte>)
    ensures [a, b, c] + tail == [x, y, z] + rest <==> a == x && b == y && c == z && tail == rest
  {
    var left, right := [a, b, c] + tail, [x, y, z] + rest;
    if left == right {
      assert left[0] == right[0] && left[1] == right[1] && left[2] == right[2];
      assert left[3..] == tail && right[3..] == rest;
    }
  }

  lemma {:induction false} GroupsDecodeLength(text: Text)
    requires FromBase64Groups(text).Some?
    ensures |FromBase64Groups(text).value| == |text| / 4 * 3 + (if |text| % 4 == 0 then 0 else |text| % 4 - 1)
  {
    if |text| >= 4 { GroupsDecodeLength(text[4..]); }
  }

  lemma {:induction false} GroupsSpell(text: Text, bytes: seq<byte>)
    ensures FromBase64Groups(text) == Some(bytes) <==> LooselySpells(text, bytes)
    decreases |bytes|
  {
    if FromBase64Groups(text).Some? { GroupsDecodeLength(text); }
    if |bytes| >= 3 {
      if |text| >= 4 {
        assert bytes == [bytes[0], bytes[1], bytes[2]] + bytes[3..];
        assert bytes[..3] == [bytes[0], bytes[1], bytes[2]];
        FullGroupSpells(text, bytes[0], bytes[1], bytes[2], bytes[3..]);
        GroupsSpell(text[4..], bytes[3..]);
      }
    } else if |bytes| == 2 {
      assert bytes == [bytes[0], bytes[1]];
      if |text| == 3 { ShortTripleSpells(text, bytes[0], bytes[1]); }
    } else if |bytes| == 1 {
      assert bytes == [bytes[0]];
      if |text| == 2 { ShortPairSpells(text, bytes[0]); }
    }
  }

  /** Decoding alone accepts, of one value, exactly these spellings: line breaks put
      anywhere, and any bits at all in the slack of a short final group. */
  lemma DecodesExactlyTheLooseSpellings(text: Text, bytes: seq<byte>)
    ensures FromBase64(text) == Some(bytes) <==> LooselySpells(WithoutLineBreaks(text), bytes)
  {
    GroupsSpell(WithoutLineBreaks(text), bytes);
  }

  /** So a value whose length is no multiple of three has several spellings of the
      issued length, and every value has longer ones. */
  lemma IssuedSpellingIsNotTheOnlyOne(bytes: seq<byte>)
    ensures FromBase64(Base64(bytes) + [10]) == Some(bytes)
    ensures |bytes| == 1 ==> forall k: sextet :: k / 16 == Sextet2(bytes[0], 0) / 16 ==>
              FromBase64([Digit(Sextet1(bytes[0])), Digit(k)]) == Some(bytes)
  {
    LineBreakAtEnd(Base64(bytes));
    Base64RoundTrip(bytes);
    if |bytes| == 1 {
      forall k: sextet | k / 16 == Sextet2(bytes[0], 0) / 16
        ensures FromBase64([Digit(Sextet1(bytes[0])), Digit(k)]) == Some(bytes)
      {
        var text := [Digit(Sextet1(bytes[0])), Digit(k)];
        NothingSkipped(text);
        DigitRoundTrip(k);
        assert bytes == [bytes[0]];
        ShortPairSpells(text, bytes[0]);
      }
    }
  }

  lemma {:induction false} LineBreakAtEnd(text: Text)
    ensures WithoutLineBreaks(text + [10]) == WithoutLineBreaks(text)
  {
    if text == [] {
      assert ([10])[1..] == [];
    } else {
      assert (text + [10])[1..] == text[1..] + [10];
      LineBreakAtEnd(text[1..]);
    }
  }

  // ---- the cursor envelope ---------------------------------------------------------

  type Magic4 = s: seq<byte> | |s| == 4 witness seq(4, _ => 0)

  const PAYLOAD_AT: nat := 37

  function CursorToken(magic: Magic4, version: byte, scope: Digest32, payload: seq<byte>): seq<byte> {
    magic + [version] + scope + payload
  }

  function EncodeCursor(magic: Magic4, version: byte, scope: Digest32, payload: seq<byte>): Text {
    Base64(CursorToken(magic, version, scope, payload))
  }

  function DecodeCursor(magic: Magic4, version: byte, scope: Digest32, cursor: Text, minPayload: nat, maxPayload: nat): Option<seq<byte>> {
    var size := DecodedLen(|cursor|);
    if size < PAYLOAD_AT + minPayload || size > PAYLOAD_AT + maxPayload then None
    else
      var decoded := FromBase64(cursor);
      if decoded.None? then None
      else
        var token := decoded.value;
        if Base64(token) != cursor then None
        else
          assert |token| == size by { Base64Length(token); }
          if token[..4] != magic || token[4] != version then None
          else if token[5..PAYLOAD_AT] != scope then None
          else Some(token[PAYLOAD_AT..])
  }

  lemma TokenParts(magic: Magic4, version: byte, scope: Digest32, payload: seq<byte>)
    ensures var token := CursorToken(magic, version, scope, payload);
            && |token| == PAYLOAD_AT + |payload|
            && token[..4] == magic && token[4] == version && token[5..PAYLOAD_AT] == scope && token[PAYLOAD_AT..] == payload
  {
  }

  lemma IssuedIsAccepted(magic: Magic4, version: byte, scope: Digest32, minPayload: nat, maxPayload: nat, payload: seq<byte>)
    requires minPayload <= |payload| <= maxPayload
    ensures DecodeCursor(magic, version, scope, EncodeCursor(magic, version, scope, payload), minPayload, maxPayload) == Some(payload)
  {
    var token := CursorToken(magic, version, scope, payload);
    Base64RoundTrip(token);
    Base64Length(token);
    TokenParts(magic, version, scope, payload);
  }

  lemma AcceptedWasIssued(magic: Magic4, version: byte, scope: Digest32, cursor: Text, minPayload: nat, maxPayload: nat)
    requires DecodeCursor(magic, version, scope, cursor, minPayload, maxPayload).Some?
    ensures var payload := DecodeCursor(magic, version, scope, cursor, minPayload, maxPayload).value;
            minPayload <= |payload| <= maxPayload && cursor == EncodeCursor(magic, version, scope, payload)
  {
    var token := FromBase64(cursor).value;
    Base64Length(token);
    assert token == CursorToken(token[..4], token[4], token[5..PAYLOAD_AT], token[PAYLOAD_AT..]);
  }

  /** A cursor is accepted exactly when it is the one issued for this kind, version
      and scope, and then for exactly the payload it was issued with. */
  lemma AcceptedExactlyWhenIssued(magic: Magic4, version: byte, scope: Digest32, cursor: Text,
                                  minPayload: nat, maxPayload: nat, payload: seq<byte>)
    ensures DecodeCursor(magic, version, scope, cursor, minPayload, maxPayload) == Some(payload) <==>
              minPayload <= |payload| <= maxPayload && cursor == EncodeCursor(magic, version, scope, payload)
  {
    if minPayload <= |payload| <= maxPayload {
      IssuedIsAccepted(magic, version, scope, minPayload, maxPayload, payload);
    }
    if DecodeCursor(magic, version, scope, cursor, minPayload, maxPayload).Some? {
      AcceptedWasIssued(magic, version, scope, cursor, minPayload, maxPayload);
    }
  }

  /** No cursor serves two kinds, two scopes or two positions. */
  lemma CursorNamesOnePlace(magic: Magic4, version: byte, scope: Digest32, payload: seq<byte>,
                            otherMagic: Magic4, otherVersion: byte, otherScope: Digest32, other: seq<byte>)
    requires EncodeCursor(magic, version, scope, payload) == EncodeCursor(otherMagic, otherVersion, otherScope, other)
    ensures magic == otherMagic && version == otherVersion && scope == otherScope && payload == other
  {
    Base64RoundTrip(CursorToken(magic, version, scope, payload));
    Base64RoundTrip(CursorToken(otherMagic, otherVersion, otherScope, other));
    TokenParts(magic, version, scope, payload);
    TokenParts(otherMagic, otherVersion, otherScope, other);
  }
}
