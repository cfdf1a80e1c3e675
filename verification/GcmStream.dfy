/**
 * What one call of the start / update / finish interface of src/aes/gcm.c does to the context,
 * said with the functions of the standard.
 */
module GcmStream {
  import opened BlockCipher
  import opened Bytes
  import opened GcmSpec

  /** The fields of a GCM context that change during a message. */
  datatype Stream = Stream(mode: Mode, y: Block, buf: Block, base: Block, len: nat, addLen: nat)

  /** 2^36 - 2^5 bytes: the longest message. */
  const MAX_LENGTH: nat := 0xF_FFFF_FFE0
  /** IV and additional data must be shorter than 2^61 bytes. */
  const TWO61: nat := 0x2000_0000_0000_0000

  /** The counter block `starts` leaves in y; the IV's bit length goes into 32 bits only. */
  function StartCounter(E: Cipher, iv: seq<Byte>): Block {
    hide Ghash, BigEndian;
    if |iv| == 12 then iv + [0, 0, 0, 1]
    else Ghash(HashKey(E), Zeros(16), Pad16(iv) + (Zeros(12) + BigEndian(8 * |iv|, 4)))
  }

  function Started(E: Cipher, mode: Mode, iv: seq<Byte>, add: seq<Byte>): Stream {
    hide Ghash, StartCounter;
    var j0 := StartCounter(E, iv);
    Stream(mode, j0, Ghash(HashKey(E), Zeros(16), Pad16(add)), E(j0), 0, |add|)
  }

  /** The bytes an update writes. */
  function Output(E: Cipher, s: Stream, input: seq<Byte>): (r: seq<Byte>)
    ensures |r| == |input|
  {
    Gctr(E, Inc32(s.y), input)
  }

  /** The ciphertext of an update, whichever side of it that is. */
  function CipherText(E: Cipher, s: Stream, input: seq<Byte>): (r: seq<Byte>)
    ensures |r| == |input|
  {
    match s.mode
    case Encrypt => Output(E, s, input)
    case Decrypt => input
  }

  function Updated(E: Cipher, s: Stream, input: seq<Byte>): Stream {
    hide Ghash, CipherText, IncBy;
    s.(y := IncBy(s.y, Blocks(|input|)),
       buf := Ghash(HashKey(E), s.buf, Pad16(CipherText(E, s, input))),
       len := s.len + |input|)
  }

  function LengthBlock(addLen: nat, len: nat): Block {
    hide BigEndian;
    BigEndian(8 * addLen, 8) + BigEndian(8 * len, 8)
  }

  function Finished(E: Cipher, s: Stream, tagLen: nat): (t: seq<Byte>)
    requires tagLen <= 16
    ensures |t| == tagLen
  {
    hide Mul;
    Xor(Mul(Xor(s.buf, LengthBlock(s.addLen, s.len)), HashKey(E)), s.base)[..tagLen]
  }

  // ---------- One block, then whole updates ----------

  lemma GhashOne(h: Block, y: Block, x: Block)
    ensures Ghash(h, y, x) == Mul(Xor(y, x), h)
  {
    hide Mul, Xor;
    assert x[..16] == x && x[16..] == [];
    assert Ghash(h, Mul(Xor(y, x), h), []) == Mul(Xor(y, x), h);
  }

  lemma Pad16Short(c: seq<Byte>)
    requires 0 < |c| <= 16
    ensures Pad16(c) == PadBlock(c)
  {}

  lemma Pad16Appends(a: seq<Byte>, b: seq<Byte>)
    requires |a| % 16 == 0
    ensures Pad16(a) == a
    ensures Pad16(a + b) == a + Pad16(b)
  {
    assert |a + b| % 16 == |b| % 16;
    var z := Zeros((16 - |b| % 16) % 16);
    assert (a + b) + z == a + (b + z);
    assert a + Zeros(0) == a;
  }

  /** What an update of at most one block does. */
  lemma UpdatedShort(E: Cipher, s: Stream, p: seq<Byte>)
    requires 0 < |p| <= 16
    ensures Output(E, s, p) == Xor(p, E(Inc32(s.y))[..|p|])
    ensures Updated(E, s, p) ==
            s.(y := Inc32(s.y),
               buf := Mul(Xor(s.buf, PadBlock(CipherText(E, s, p))), HashKey(E)),
               len := s.len + |p|)
  {
    hide Mul, Xor, Ghash, Inc32, Pad16, PadBlock, CipherText, HashKey;
    assert Blocks(|p|) == 1;
    assert IncBy(s.y, 1) == Inc32(IncBy(s.y, 0)) == Inc32(s.y);
    Pad16Short(CipherText(E, s, p));
    GhashOne(HashKey(E), s.buf, PadBlock(CipherText(E, s, p)));
  }

  lemma BlocksAdd(a: nat, b: nat)
    requires a % 16 == 0
    ensures Blocks(a + b) == a / 16 + Blocks(b)
    ensures Blocks(a) == a / 16
  {}

  lemma CipherTextAppends(E: Cipher, s: Stream, a: seq<Byte>, b: seq<Byte>)
    requires |a| % 16 == 0
    ensures Output(E, s, a + b) == Output(E, s, a) + Output(E, Updated(E, s, a), b)
    ensures CipherText(E, s, a + b) == CipherText(E, s, a) + CipherText(E, Updated(E, s, a), b)
  {
    hide Gctr, Inc32, Ghash, Pad16, IncBy, HashKey;
    GctrAppends(E, Inc32(s.y), a, b);
    BlocksAdd(|a|, 0);
    IncFirst(s.y, |a| / 16);
  }

  lemma IncFirst(y: Block, k: nat)
    ensures IncBy(Inc32(y), k) == Inc32(IncBy(y, k))
  {
    hide Inc32;
    IncByAdds(y, 1, k);
    assert IncBy(y, 1) == Inc32(IncBy(y, 0)) == Inc32(y);
    assert IncBy(y, k + 1) == Inc32(IncBy(y, k));
  }

  /** Two updates, the first one of whole blocks, do what one update of all the bytes does. */
  lemma UpdatedAppends(E: Cipher, s: Stream, a: seq<Byte>, b: seq<Byte>)
    requires |a| % 16 == 0
    ensures Updated(E, Updated(E, s, a), b) == Updated(E, s, a + b)
    ensures Output(E, s, a + b) == Output(E, s, a) + Output(E, Updated(E, s, a), b)
  {
    hide Output, CipherText, Ghash, Inc32, Pad16, IncBy, HashKey, Blocks;
    CipherTextAppends(E, s, a, b);
    var ca, cb := CipherText(E, s, a), CipherText(E, Updated(E, s, a), b);
    Pad16Appends(ca, cb);
    GhashAppends(HashKey(E), s.buf, ca, Pad16(cb));
    BlocksAdd(|a|, |b|);
    IncByAdds(s.y, |a| / 16, Blocks(|b|));
  }

  lemma UpdatedNone(E: Cipher, s: Stream)
    ensures Updated(E, s, []) == s
    ensures Output(E, s, []) == []
  {
    assert Pad16([]) == [];
    assert Blocks(0) == 0;
  }
}
