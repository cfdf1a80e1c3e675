/** Byte strings and 16-byte blocks, shared by the AES and GCM models. */
module Bytes {

  type Byte = bv8

  /** The 128-bit block every cipher mode of the repository works on. */
  type Block = b: seq<Byte> | |b| == 16 witness seq(16, _ => 0)

  function Zeros(n: nat): (z: seq<Byte>)
    ensures |z| == n
  {
    seq(n, _ => 0)
  }

  /** Byte-wise exclusive or of two strings of the same length. */
  function Xor(a: seq<Byte>, b: seq<Byte>): (r: seq<Byte>)
    requires |a| == |b|
    ensures |r| == |a|
  {
    seq(|a|, i requires 0 <= i < |a| => XorByte(a[i], b[i]))
  }

  function XorByte(a: Byte, b: Byte): Byte { a ^ b }

  lemma XorByteTwice(a: Byte, b: Byte)
    ensures XorByte(XorByte(a, b), b) == a
    ensures XorByte(b, XorByte(b, a)) == a
  {}

  /** Adding the same string twice gives back the original one. */
  lemma XorTwice(a: seq<Byte>, b: seq<Byte>)
    requires |a| == |b|
    ensures Xor(Xor(a, b), b) == a
    ensures Xor(b, Xor(b, a)) == a
  {
    forall i | 0 <= i < |a|
      ensures Xor(Xor(a, b), b)[i] == a[i]
      ensures Xor(b, Xor(b, a))[i] == a[i]
    {
      XorByteTwice(a[i], b[i]);
    }
  }

  /** The first `n` bytes followed by zeros up to a whole block. */
  function PadBlock(s: seq<Byte>): (b: Block)
    requires |s| <= 16
  {
    s + Zeros(16 - |s|)
  }

  // ---------- Byte strings as big-endian numbers ----------

  /** int(X): the number a byte string stands for, most significant byte first. */
  function Value(s: seq<Byte>): nat {
    if s == [] then 0 else Value(s[..|s| - 1]) * 256 + s[|s| - 1] as nat
  }

  /** [n] in k bytes, most significant byte first; digits beyond k bytes are dropped. */
  function BigEndian(n: nat, k: nat): (r: seq<Byte>)
    ensures |r| == k
  {
    hide ByteOf;
    if k == 0 then [] else BigEndian(n / 256, k - 1) + [ByteOf(n % 256)]
  }

  function Pow256(k: nat): (p: nat)
    ensures p > 0
  {
    if k == 0 then 1 else 256 * Pow256(k - 1)
  }

  lemma NatOfByte(b: Byte)
    ensures b as nat < 256
    ensures b as nat == 255 <==> b == 255
  {}

  lemma NextByte(b: Byte)
    requires b != 0xFF
    ensures (b + 1) as nat == b as nat + 1
  {}

  lemma SameByte(a: Byte, b: Byte)
    requires a as nat == b as nat
    ensures a == b
  {}

  /** The byte with a given value, counted up so that no conversion from integers is needed. */
  function ByteOf(n: nat): (b: Byte)
    requires n < 256
    ensures b as nat == n
  {
    if n == 0 then 0
    else
      var c := ByteOf(n - 1);
      NatOfByte(c);
      NextByte(c);
      c + 1
  }

  lemma {:induction false} ValueBound(s: seq<Byte>)
    ensures Value(s) < Pow256(|s|)
  {
    if s != [] {
      ValueBound(s[..|s| - 1]);
      NatOfByte(s[|s| - 1]);
    }
  }

  /** The bytes of the number a string stands for are the string. */
  lemma {:induction false} BigEndianOfValue(s: seq<Byte>)
    ensures BigEndian(Value(s), |s|) == s
  {
    hide ByteOf;
    if s != [] {
      var init, last := s[..|s| - 1], s[|s| - 1];
      NatOfByte(last);
      BigEndianOfValue(init);
      assert Value(s) / 256 == Value(init) && Value(s) % 256 == last as nat;
      SameByte(ByteOf(last as nat), last);
      assert s == init + [last];
    }
  }

  /** The number `k` bytes of n stand for is n, as far as it fits. */
  lemma {:induction false} ValueOfBigEndian(n: nat, k: nat)
    requires n < Pow256(k)
    ensures Value(BigEndian(n, k)) == n
  {
    hide ByteOf;
    if k > 0 {
      ValueOfBigEndian(n / 256, k - 1);
      var b := BigEndian(n, k);
      assert b[..|b| - 1] == BigEndian(n / 256, k - 1);
    }
  }

  /** Writing a block into a 16-byte buffer. */
  method Put(a: array<Byte>, b: Block)
    requires a.Length == 16
    modifies a
    ensures a[..] == b
  {
    forall k | 0 <= k < 16 { a[k] := b[k]; }
    assert a[..] == b;
  }
}

/** What the modes of operation have in common. */
module BlockCipher {
  import opened Bytes

  /** A keyed block operation. */
  type Cipher = Block -> Block

  datatype Mode = Encrypt | Decrypt

  /** Pieces put together again. */
  function Concat(chunks: seq<seq<Byte>>): seq<Byte> {
    if chunks == [] then [] else chunks[0] + Concat(chunks[1..])
  }
}
