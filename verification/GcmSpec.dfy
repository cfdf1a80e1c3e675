/**
 * GCM as NIST SP 800-38D defines it, over an arbitrary block function: the counter increment
 * (6.2), GHASH (6.4), GCTR (6.5), the pre-counter block and the authenticated encryption and
 * decryption functions (7.1, 7.2), with the laws that make them work piece by piece.
 */
module GcmSpec {
  import opened BlockCipher
  import opened Bytes
  import opened GhashField

  /** What every keyed block cipher is: no two blocks have the same encryption. */
  ghost predicate Injective(E: Cipher) { forall a: Block, b: Block :: E(a) == E(b) ==> a == b }

  /** H = CIPH_K(0^128) */
  function HashKey(E: Cipher): Block { E(Zeros(16)) }

  function Mul(x: Block, h: Block): Block { Store(Product(x, Load(h))) }

  /** The string followed by the fewest zero bytes that complete its last block. */
  function Pad16(s: seq<Byte>): (r: seq<Byte>)
    ensures |r| % 16 == 0 && |s| <= |r| < |s| + 16
  {
    s + Zeros((16 - |s| % 16) % 16)
  }

  /** GHASH continued from the intermediate value y. */
  function Ghash(h: Block, y: Block, x: seq<Byte>): Block
    requires |x| % 16 == 0
    decreases |x|
  {
    hide Mul;
    if x == [] then y else Ghash(h, Mul(Xor(y, x[..16]), h), x[16..])
  }

  const TWO32: nat := 0x1_0000_0000
  const TWO64: nat := 0x1_0000_0000_0000_0000

  /** inc_32: the last four bytes count, the first twelve stay. */
  function Inc32(b: Block): Block {
    b[..12] + BigEndian((Value(b[12..]) + 1) % TWO32, 4)
  }

  function IncBy(b: Block, k: nat): Block {
    if k == 0 then b else Inc32(IncBy(b, k - 1))
  }

  /** The number of blocks, the last one possibly partial, in n bytes. */
  function Blocks(n: nat): nat { (n + 15) / 16 }

  /** GCTR with initial counter block icb. */
  function Gctr(E: Cipher, icb: Block, x: seq<Byte>): (r: seq<Byte>)
    ensures |r| == |x|
    decreases |x|
  {
    hide Inc32;
    if |x| <= 16 then Xor(x, E(icb)[..|x|])
    else Xor(x[..16], E(icb)) + Gctr(E, Inc32(icb), x[16..])
  }

  /** The pre-counter block J0. */
  function PreCounter(E: Cipher, iv: seq<Byte>): Block {
    hide Ghash, BigEndian;
    if |iv| == 12 then iv + [0, 0, 0, 1]
    else Ghash(HashKey(E), Zeros(16), Pad16(iv) + Zeros(8) + BigEndian(8 * |iv|, 8))
  }

  /** The tag before truncation, from the pre-counter block, the additional data and the ciphertext. */
  function FullTag(E: Cipher, j0: Block, a: seq<Byte>, c: seq<Byte>): Block {
    hide Ghash, BigEndian, Gctr, HashKey, Pad16, Zeros;
    var s := Ghash(HashKey(E), Zeros(16), Pad16(a) + Pad16(c) + BigEndian(8 * |a|, 8) + BigEndian(8 * |c|, 8));
    Gctr(E, j0, s)
  }

  /** GCM-AE_K(IV, P, A): ciphertext and tag of t bytes. */
  function Seal(E: Cipher, iv: seq<Byte>, p: seq<Byte>, a: seq<Byte>, t: nat): (seq<Byte>, seq<Byte>)
    requires t <= 16
  {
    var j0 := PreCounter(E, iv);
    var c := Gctr(E, Inc32(j0), p);
    (c, FullTag(E, j0, a, c)[..t])
  }

  datatype Opened = Plaintext(p: seq<Byte>) | Fail

  /** GCM-AD_K(IV, C, A, T) */
  function Open(E: Cipher, iv: seq<Byte>, c: seq<Byte>, a: seq<Byte>, tag: seq<Byte>): Opened
    requires |tag| <= 16
  {
    var j0 := PreCounter(E, iv);
    if tag == FullTag(E, j0, a, c)[..|tag|] then Plaintext(Gctr(E, Inc32(j0), c)) else Fail
  }

  // ---------- Working piece by piece ----------

  lemma {:induction false} GhashAppends(h: Block, y: Block, a: seq<Byte>, b: seq<Byte>)
    requires |a| % 16 == 0 && |b| % 16 == 0
    ensures Ghash(h, y, a + b) == Ghash(h, Ghash(h, y, a), b)
    decreases |a|
  {
    hide Mul, Xor;
    if a == [] {
      assert a + b == b;
    } else {
      assert (a + b)[..16] == a[..16] && (a + b)[16..] == a[16..] + b;
      GhashAppends(h, Mul(Xor(y, a[..16]), h), a[16..], b);
    }
  }

  lemma {:induction false} IncByAdds(b: Block, j: nat, k: nat)
    ensures IncBy(IncBy(b, j), k) == IncBy(b, j + k)
  {
    hide Inc32;
    if k > 0 {
      IncByAdds(b, j, k - 1);
    }
  }

  lemma {:induction false} GctrAppends(E: Cipher, icb: Block, a: seq<Byte>, b: seq<Byte>)
    requires |a| % 16 == 0
    ensures Gctr(E, icb, a + b) == Gctr(E, icb, a) + Gctr(E, IncBy(icb, |a| / 16), b)
    decreases |a|
  {
    hide Xor, Inc32;
    if a == [] {
      assert a + b == b;
    } else if |a| + |b| == 16 {
      assert a + b == a;
    } else {
      var c := a + b;
      assert c[..16] == a[..16] && c[16..] == a[16..] + b;
      GctrAppends(E, Inc32(icb), a[16..], b);
      IncByAdds(icb, 1, |a[16..]| / 16);
      assert IncBy(icb, 1) == Inc32(icb);
      assert 1 + |a[16..]| / 16 == |a| / 16;
      if |a| == 16 {
        assert a[..16] == a && a[16..] == [] && E(icb)[..16] == E(icb);
      }
    }
  }

  /** Applying the keystream twice restores the text. */
  lemma {:induction false} GctrTwice(E: Cipher, icb: Block, x: seq<Byte>)
    ensures Gctr(E, icb, Gctr(E, icb, x)) == x
    decreases |x|
  {
    hide Xor, Inc32;
    if |x| <= 16 {
      XorTwice(x, E(icb)[..|x|]);
    } else {
      var y := Gctr(E, icb, x);
      assert y[..16] == Xor(x[..16], E(icb)) && y[16..] == Gctr(E, Inc32(icb), x[16..]);
      XorTwice(x[..16], E(icb));
      GctrTwice(E, Inc32(icb), x[16..]);
    }
  }

  /** What is sealed opens to the same plaintext, for every key, IV, additional data and tag length. */
  lemma OpenUndoesSeal(E: Cipher, iv: seq<Byte>, p: seq<Byte>, a: seq<Byte>, t: nat)
    requires t <= 16
    ensures var (c, tag) := Seal(E, iv, p, a, t);
            Open(E, iv, c, a, tag) == Plaintext(p)
  {
    hide Gctr, Ghash;
    GctrTwice(E, Inc32(PreCounter(E, iv)), p);
  }

  lemma {:induction false} NoSteps(x: seq<bool>, z: Elem, v: Elem)
    requires forall i :: 0 <= i < |x| ==> !x[i]
    ensures ProductSteps(x, z, v) == z
    decreases |x|
  {
    if x != [] {
      NoSteps(x[1..], z, MulP(v));
    }
  }

  lemma MulZero(h: Block)
    ensures Mul(Zeros(16), h) == Zeros(16)
  {
    hide Load, Store, Bits;
    ZeroBits(16);
    NoSteps(Bits(Zeros(16)), ZERO, Load(h));
    StoreZero();
  }

  lemma StoreZero()
    ensures Store(ZERO) == Zeros(16)
  {}

  // ---------- The counter ----------

  lemma Inc32Counts(b: Block)
    ensures Inc32(b)[..12] == b[..12]
    ensures Value(Inc32(b)[12..]) == (Value(b[12..]) + 1) % TWO32
  {
    var n := (Value(b[12..]) + 1) % TWO32;
    assert Pow256(4) == TWO32;
    ValueOfBigEndian(n, 4);
    assert Inc32(b)[12..] == BigEndian(n, 4);
  }

  lemma {:induction false} IncByCounts(b: Block, k: nat)
    ensures IncBy(b, k)[..12] == b[..12]
    ensures Value(IncBy(b, k)[12..]) == (Value(b[12..]) + k) % TWO32
  {
    hide Inc32, Value;
    if k == 0 {
      ValueBound(b[12..]);
      assert Pow256(4) == TWO32;
    } else {
      IncByCounts(b, k - 1);
      Inc32Counts(IncBy(b, k - 1));
    }
  }

  /** Counter blocks fewer than 2^32 steps apart differ. */
  lemma IncByDistinct(b: Block, j: nat, k: nat)
    requires j < k < j + TWO32
    ensures IncBy(b, j) != IncBy(b, k)
  {
    hide IncBy, Value;
    IncByCounts(b, j);
    IncByCounts(b, k);
  }

  /** Exactly 2^32 steps bring the counter back, so no weaker bound than the one above would do. */
  lemma IncByWraps(b: Block)
    ensures IncBy(b, TWO32) == b
  {
    hide IncBy, Value, BigEndian;
    IncByCounts(b, TWO32);
    var c := IncBy(b, TWO32);
    ValueBound(b[12..]);
    assert Pow256(4) == TWO32;
    BigEndianOfValue(b[12..]);
    BigEndianOfValue(c[12..]);
    assert b == b[..12] + b[12..] && c == c[..12] + c[12..];
  }
}
