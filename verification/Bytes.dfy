/** Bytes, machine words and their big-endian spelling. A Go string is a byte
    sequence, so `Text` is one too. */
module Bytes {

  type byte = b: int | 0 <= b < 256
  type Text = seq<byte>

  const TWO_TO_THE_64: nat := 0x1_0000_0000_0000_0000

  type uint64 = n: int | 0 <= n < TWO_TO_THE_64
  type Digest32 = s: seq<byte> | |s| == 32 witness seq(32, _ => 0)
  type Uuid16 = s: seq<byte> | |s| == 16 witness seq(16, _ => 0)

  function ZeroDigest(): Digest32 { seq(32, _ => 0) }

  function ZeroUuid(): Uuid16 { seq(16, _ => 0) }

  /** The bytes of an ASCII literal. */
  function Ascii(s: string): Text
    requires forall i :: 0 <= i < |s| ==> s[i] < 128 as char
  {
    seq(|s|, i requires 0 <= i < |s| => s[i] as int)
  }

  function Pow256(width: nat): nat {
    if width == 0 then 1 else 256 * Pow256(width - 1)
  }

  /** The low `width` bytes of `n`, most significant first. */
  function BigEndian(n: nat, width: nat): (bytes: seq<byte>)
    ensures |bytes| == width
  {
    if width == 0 then [] else BigEndian(n / 256, width - 1) + [n % 256]
  }

  function FromBigEndian(bytes: seq<byte>): nat {
    if bytes == [] then 0
    else FromBigEndian(bytes[..|bytes| - 1]) * 256 + bytes[|bytes| - 1]
  }

  lemma {:induction false} FromBigEndianBound(bytes: seq<byte>)
    ensures FromBigEndian(bytes) < Pow256(|bytes|)
  {
    if bytes != [] {
      FromBigEndianBound(bytes[..|bytes| - 1]);
    }
  }

  lemma {:induction false} BigEndianRoundTrip(n: nat, width: nat)
    requires n < Pow256(width)
    ensures FromBigEndian(BigEndian(n, width)) == n
  {
    if width != 0 {
      BigEndianRoundTrip(n / 256, width - 1);
      var bytes := BigEndian(n, width);
      assert bytes[..|bytes| - 1] == BigEndian(n / 256, width - 1);
    }
  }

  lemma {:induction false} FromBigEndianRoundTrip(bytes: seq<byte>)
    ensures BigEndian(FromBigEndian(bytes), |bytes|) == bytes
  {
    if bytes != [] {
      var front := bytes[..|bytes| - 1];
      FromBigEndianRoundTrip(front);
      assert bytes == front + [bytes[|bytes| - 1]];
    }
  }

  lemma WordSizes()
    ensures Pow256(2) == 0x1_0000 && Pow256(4) == 0x1_0000_0000 && Pow256(8) == TWO_TO_THE_64
  {
    assert Pow256(4) == 256 * (256 * (256 * (256 * Pow256(0))));
    assert Pow256(8) == 256 * (256 * (256 * (256 * Pow256(4))));
  }
}
