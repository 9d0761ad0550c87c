/** Stored attachments: a magic number, then the data combined with a key derived from the user's id.  SHA-256
    is a parameter of which only the length of the digest matters. */
module Attachments {
  import opened Bytes

  const MAGIC: seq<byte> := [0x48, 0x54, 0x44, 0x45]

  type Key = k: seq<byte> | |k| == 32 witness seq(32, _ => 0)

  /** The key of each user id. */
  type Digest = seq<byte> -> Key

  function Power(bits: nat): nat {
    if bits == 0 then 1 else 2 * Power(bits - 1)
  }

  /** Exclusive or of the low bits. */
  function XorBits(bits: nat, a: nat, b: nat): (x: nat)
    ensures x < Power(bits)
  {
    if bits == 0 then 0 else 2 * XorBits(bits - 1, a / 2, b / 2) + if a % 2 == b % 2 then 0 else 1
  }

  function Xor(a: byte, b: byte): byte {
    assert Power(8) == 256;
    XorBits(8, a, b)
  }

  predicate HasMagic(data: seq<byte>) {
    |data| >= 4 && data[..4] == MAGIC
  }

  method EncryptAttachment(digest: Digest, data: seq<byte>, userId: seq<byte>) returns (out: seq<byte>)
    ensures |out| == 4 + |data| && out[..4] == MAGIC
    ensures out[0] == 'H' as int && out[1] == 'T' as int && out[2] == 'D' as int && out[3] == 'E' as int
    ensures forall i | 0 <= i < |data| :: out[4 + i] == Xor(data[i], digest(userId)[i % 32])
    ensures out == Encrypted(digest, data, userId)
  {
    var key := digest(userId);
    out := MAGIC;
    for i := 0 to |data|
      invariant |out| == 4 + i && out[..4] == MAGIC
      invariant forall j | 0 <= j < i :: out[4 + j] == Xor(data[j], key[j % 32])
    {
      out := out + [Xor(data[i], key[i % 32])];
    }
    assert out == out[..4] + out[4..];
    assert out[4..] == Combine(data, key);
  }

  function Combine(data: seq<byte>, key: Key): (combined: seq<byte>)
    ensures |combined| == |data|
    ensures forall i | 0 <= i < |data| :: combined[i] == Xor(data[i], key[i % 32])
  {
    seq(|data|, i requires 0 <= i < |data| => Xor(data[i], key[i % 32]))
  }

  function Encrypted(digest: Digest, data: seq<byte>, userId: seq<byte>): seq<byte> {
    MAGIC + Combine(data, digest(userId))
  }

  function DecryptAttachment(digest: Digest, data: seq<byte>, userId: seq<byte>): seq<byte> {
    if |data| < 4 || data[..4] != MAGIC then data
    else Combine(data[4..], digest(userId))
  }

  /** Bit `i` of `n`. */
  function Bit(n: nat, i: nat): nat {
    if i == 0 then n % 2 else Bit(n / 2, i - 1)
  }

  /** A bit is set exactly if it is set in one of the two bytes but not in both. */
  lemma XorMeaning(a: byte, b: byte, i: nat)
    requires i < 8
    ensures Bit(Xor(a, b), i) == if Bit(a, i) == Bit(b, i) then 0 else 1
  {
    XorBitsMeaning(8, a, b, i);
  }

  lemma {:induction false} XorBitsMeaning(bits: nat, a: nat, b: nat, i: nat)
    requires i < bits
    ensures Bit(XorBits(bits, a, b), i) == if Bit(a, i) == Bit(b, i) then 0 else 1
  {
    XorBitsHalves(bits, a, b);
    if i > 0 {
      XorBitsMeaning(bits - 1, a / 2, b / 2, i - 1);
    }
  }

  lemma XorTwice(a: byte, k: byte, l: byte)
    ensures Xor(Xor(a, k), l) == a <==> k == l
  {
    XorBitsTwice(8, a, k, l);
  }

  lemma XorBitsHalves(bits: nat, a: nat, b: nat)
    requires bits > 0
    ensures XorBits(bits, a, b) / 2 == XorBits(bits - 1, a / 2, b / 2)
    ensures XorBits(bits, a, b) % 2 == if a % 2 == b % 2 then 0 else 1
  {
  }

  lemma SameHalves(a: nat, b: nat)
    ensures a == b <==> a / 2 == b / 2 && a % 2 == b % 2
  {
  }

  lemma {:induction false} XorBitsTwice(bits: nat, a: nat, k: nat, l: nat)
    requires a < Power(bits) && k < Power(bits) && l < Power(bits)
    ensures XorBits(bits, XorBits(bits, a, k), l) == a <==> k == l
  {
    if bits > 0 {
      var once := XorBits(bits, a, k);
      XorBitsHalves(bits, a, k);
      XorBitsHalves(bits, once, l);
      SameHalves(k, l);
      SameHalves(XorBits(bits, once, l), a);
      XorBitsTwice(bits - 1, a / 2, k / 2, l / 2);
    }
  }

  lemma CombineTwiceAt(data: seq<byte>, k: Key, l: Key, i: nat)
    requires i < |data|
    ensures Combine(Combine(data, k), l)[i] == data[i] <==> k[i % 32] == l[i % 32]
  {
    XorTwice(data[i], k[i % 32], l[i % 32]);
  }

  predicate AgreeOn(k: Key, l: Key, n: nat) {
    forall i | 0 <= i < 32 && i < n :: k[i] == l[i]
  }

  lemma CombineTwiceRestores(data: seq<byte>, k: Key, l: Key)
    requires AgreeOn(k, l, |data|)
    ensures Combine(Combine(data, k), l) == data
  {
    forall i | 0 <= i < |data| ensures Combine(Combine(data, k), l)[i] == data[i] {
      CombineTwiceAt(data, k, l, i);
      assert k[i % 32] == l[i % 32];
    }
  }

  lemma RestoredMeansAgree(data: seq<byte>, k: Key, l: Key)
    requires Combine(Combine(data, k), l) == data
    ensures AgreeOn(k, l, |data|)
  {
    forall i | 0 <= i < 32 && i < |data| ensures k[i] == l[i] {
      CombineTwiceAt(data, k, l, i);
    }
  }

  /** Decrypting with another user's id gives the data back exactly when the keys agree on its length. */
  lemma DecryptInvertsEncryptIff(digest: Digest, data: seq<byte>, userId: seq<byte>, otherId: seq<byte>)
    ensures DecryptAttachment(digest, Encrypted(digest, data, userId), otherId) == data
       <==> AgreeOn(digest(userId), digest(otherId), |data|)
  {
    var k, l := digest(userId), digest(otherId);
    var encrypted := Encrypted(digest, data, userId);
    assert encrypted[..4] == MAGIC && encrypted[4..] == Combine(data, k);
    if AgreeOn(k, l, |data|) {
      CombineTwiceRestores(data, k, l);
    } else if Combine(Combine(data, k), l) == data {
      RestoredMeansAgree(data, k, l);
    }
  }

  /** With the user's own id it always does. */
  lemma DecryptInvertsEncrypt(digest: Digest, data: seq<byte>, userId: seq<byte>)
    ensures DecryptAttachment(digest, Encrypted(digest, data, userId), userId) == data
  {
    DecryptInvertsEncryptIff(digest, data, userId, userId);
  }

  /** Data that was stored unencrypted is returned as it is exactly when it does not start with the magic. */
  lemma PlainIsKeptIff(digest: Digest, data: seq<byte>, userId: seq<byte>)
    ensures DecryptAttachment(digest, data, userId) == data <==> !HasMagic(data)
  {
  }

  /** Encrypting what was decrypted restores the file exactly when it was an encrypted one. */
  lemma EncryptInvertsDecryptIff(digest: Digest, data: seq<byte>, userId: seq<byte>)
    ensures Encrypted(digest, DecryptAttachment(digest, data, userId), userId) == data <==> HasMagic(data)
  {
    if HasMagic(data) {
      CombineTwiceRestores(data[4..], digest(userId), digest(userId));
      assert data == data[..4] + data[4..];
    }
  }
}
