/**
 * What the tag and the ciphertext of GCM are, written out: the tag as a polynomial in the hash key,
 * each ciphertext byte by its place. Neither mentions how the bytes are hashed or masked in turn.
 */
module GcmForm {
  import opened BlockCipher
  import opened Bytes
  import opened Words
  import opened GhashField
  import opened GhashRing
  import opened GcmSpec
  import opened GcmStream
  import opened GcmLaws

  // ---------- Adding blocks is adding elements ----------

  function Xor32(a: bv32, b: bv32): bv32 { a ^ b }

  function Halves(h: bv32, l: bv32): bv64 { (h as bv64 << 32) | l as bv64 }

  lemma XorWord32(a: Byte, b: Byte, c: Byte, d: Byte, a': Byte, b': Byte, c': Byte, d': Byte)
    ensures Word32(XorByte(a, a'), XorByte(b, b'), XorByte(c, c'), XorByte(d, d')) ==
            Xor32(Word32(a, b, c, d), Word32(a', b', c', d'))
  {}

  lemma XorHalves(h: bv32, l: bv32, h': bv32, l': bv32)
    ensures Halves(Xor32(h, h'), Xor32(l, l')) == Xor64(Halves(h, l), Halves(h', l'))
  {}

  lemma WordHalves(s: seq<Byte>)
    requires |s| == 8
    ensures WordOf(s) == Halves(Word32(s[0], s[1], s[2], s[3]), Word32(s[4], s[5], s[6], s[7]))
  {
    hide Word32;
  }

  lemma XorWord64(s: seq<Byte>, t: seq<Byte>)
    requires |s| == |t| == 8
    ensures WordOf(Xor(s, t)) == Xor64(WordOf(s), WordOf(t))
  {
    hide Word32, Xor64, XorByte, Halves, Xor32, WordOf;
    WordHalves(s);
    WordHalves(t);
    WordHalves(Xor(s, t));
    XorWord32(s[0], s[1], s[2], s[3], t[0], t[1], t[2], t[3]);
    XorWord32(s[4], s[5], s[6], s[7], t[4], t[5], t[6], t[7]);
    XorHalves(Word32(s[0], s[1], s[2], s[3]), Word32(s[4], s[5], s[6], s[7]),
              Word32(t[0], t[1], t[2], t[3]), Word32(t[4], t[5], t[6], t[7]));
  }

  function WordOf(s: seq<Byte>): bv64
    requires |s| == 8
  {
    Word64(s[0], s[1], s[2], s[3], s[4], s[5], s[6], s[7])
  }

  lemma LoadXor(a: Block, b: Block)
    ensures Load(Xor(a, b)) == Add(Load(a), Load(b))
  {
    hide Word64, Xor64, XorByte;
    assert Xor(a, b)[..8] == Xor(a[..8], b[..8]) && Xor(a, b)[8..] == Xor(a[8..], b[8..]);
    XorWord64(a[..8], b[..8]);
    XorWord64(a[8..], b[8..]);
  }

  // ---------- GHASH as a polynomial ----------

  function PowerOf(h: Elem, n: nat): Elem {
    if n == 0 then ONE else Times(h, PowerOf(h, n - 1))
  }

  /** x[0] * h^m + x[1] * h^(m-1) + .. + x[m-1] * h, for m elements. */
  function Polynomial(h: Elem, x: seq<Elem>): Elem {
    if x == [] then ZERO else Add(Times(x[0], PowerOf(h, |x|)), Polynomial(h, x[1..]))
  }

  function Elems(x: seq<Byte>): (r: seq<Elem>)
    requires |x| % 16 == 0
    ensures |r| == |x| / 16
  {
    hide Load;
    if x == [] then [] else [Load(x[..16])] + Elems(x[16..])
  }

  lemma {:induction false} ElemsAppend(a: seq<Byte>, b: seq<Byte>)
    requires |a| % 16 == 0 && |b| % 16 == 0
    ensures Elems(a + b) == Elems(a) + Elems(b)
    decreases |a|
  {
    hide Load;
    if a == [] {
      assert a + b == b;
    } else {
      assert (a + b)[..16] == a[..16] && (a + b)[16..] == a[16..] + b;
      ElemsAppend(a[16..], b);
    }
  }

  lemma ElemsOne(x: Block)
    ensures Elems(x) == [Load(x)]
  {
    hide Load;
    assert x[..16] == x && x[16..] == [];
  }

  lemma LoadMul(x: Block, h: Block)
    ensures Load(Mul(x, h)) == Times(Load(x), Load(h))
  {
    hide Load, Store, Times, Mul;
    MulIsTimes(x, h);
    LoadStore(Times(Load(x), Load(h)));
  }

  /** (y + x) * h * h^n = y * h^(n+1) + x * h^(n+1) */
  lemma OneMoreTerm(y: Elem, x: Elem, h: Elem, n: nat)
    ensures Times(Times(Add(y, x), h), PowerOf(h, n)) ==
            Add(Times(y, PowerOf(h, n + 1)), Times(x, PowerOf(h, n + 1)))
  {
    hide Times, Add;
    var p := PowerOf(h, n + 1);
    assert p == Times(h, PowerOf(h, n));
    TimesAssociates(Add(y, x), h, PowerOf(h, n));
    TimesCommutes(Add(y, x), p);
    TimesDistributes(p, y, x);
    TimesCommutes(p, y);
    TimesCommutes(p, x);
  }

  lemma {:induction false} GhashFrom(h: Block, y: Block, x: seq<Byte>)
    requires |x| % 16 == 0
    ensures Load(Ghash(h, y, x)) ==
            Add(Times(Load(y), PowerOf(Load(h), |x| / 16)), Polynomial(Load(h), Elems(x)))
    decreases |x|
  {
    hide Times, Add, Mul, Xor, Load, PowerOf;
    var g, e := Load(h), Load(y);
    if x == [] {
      NoPower(g);
      TimesOne(e);
      AddZero(e);
    } else {
      var b, rest := x[..16], x[16..];
      var n := |rest| / 16;
      assert |x| / 16 == n + 1;
      GhashFrom(h, Mul(Xor(y, b), h), rest);
      LoadMul(Xor(y, b), h);
      LoadXor(y, b);
      OneMoreTerm(e, Load(b), g, n);
      var p := PowerOf(g, n + 1);
      assert Elems(x)[0] == Load(b) && Elems(x)[1..] == Elems(rest);
      AddAssociates(Times(e, p), Times(Load(b), p), Polynomial(g, Elems(rest)));
    }
  }

  lemma NoPower(h: Elem)
    ensures PowerOf(h, 0) == ONE
  {}

  /** GHASH is the polynomial whose coefficients are the blocks, the last one at the first power. */
  lemma GhashIsPolynomial(h: Block, x: seq<Byte>)
    requires |x| % 16 == 0
    ensures Load(Ghash(h, Zeros(16), x)) == Polynomial(Load(h), Elems(x))
  {
    hide Times, Add, Load, PowerOf, Polynomial, Ghash;
    GhashFrom(h, Zeros(16), x);
    LoadZeros();
    TimesZero(PowerOf(Load(h), |x| / 16));
    AddZero(Polynomial(Load(h), Elems(x)));
  }

  // ---------- The tag ----------

  /** The bit length of the additional data in the first half of the block, that of the text in the second. */
  predicate IsLengths(l: Block, bitsOfA: nat, bitsOfC: nat) {
    Value(l[..8]) == bitsOfA && Value(l[8..]) == bitsOfC
  }

  lemma HalfSize()
    ensures Pow256(8) == 0x1_0000_0000_0000_0000
  {
    assert Pow256(4) == 0x1_0000_0000;
  }

  /** What finish hashes last has the two lengths in this order. */
  lemma LengthBlockIs(addLen: nat, len: nat)
    requires addLen < TWO61 && len < TWO61
    ensures IsLengths(LengthBlock(addLen, len), 8 * addLen, 8 * len)
  {
    hide BigEndian, Value;
    HalfSize();
    ValueOfBigEndian(8 * addLen, 8);
    ValueOfBigEndian(8 * len, 8);
    var a, c := BigEndian(8 * addLen, 8), BigEndian(8 * len, 8);
    assert (a + c)[..8] == a && (a + c)[8..] == c;
  }

  lemma LengthsUnique(l: Block, m: Block, a: nat, c: nat)
    requires IsLengths(l, a, c) && IsLengths(m, a, c)
    ensures l == m
  {
    hide BigEndian, Value;
    BigEndianOfValue(l[..8]);
    BigEndianOfValue(m[..8]);
    BigEndianOfValue(l[8..]);
    BigEndianOfValue(m[8..]);
    assert l == l[..8] + l[8..] && m == m[..8] + m[8..];
  }

  /**
   * The tag is the polynomial in the hash key of the blocks of the additional data, those of the
   * ciphertext, and the block of their lengths, plus the encrypted pre-counter block.
   */
  lemma TagIsPolynomial(E: Cipher, j0: Block, a: seq<Byte>, c: seq<Byte>, l: Block)
    requires |a| < TWO61 && |c| < TWO61 && IsLengths(l, 8 * |a|, 8 * |c|)
    ensures Load(FullTag(E, j0, a, c)) ==
            Add(Polynomial(Load(HashKey(E)), Elems(Pad16(a)) + Elems(Pad16(c)) + [Load(l)]), Load(E(j0)))
  {
    hide Ghash, Xor, HashKey, Pad16, LengthBlock, Load, Polynomial, Elems, FullTag, Add, IsLengths;
    LengthBlockIs(|a|, |c|);
    LengthsUnique(l, LengthBlock(|a|, |c|), 8 * |a|, 8 * |c|);
    TagIsHash(E, j0, a, c);
    HashOfAll(HashKey(E), Pad16(a), Pad16(c), l);
    LoadXor(Ghash(HashKey(E), Zeros(16), Blocks3(Pad16(a), Pad16(c), l)), E(j0));
  }

  function Blocks3(a: seq<Byte>, c: seq<Byte>, l: Block): (r: seq<Byte>)
    requires |a| % 16 == 0 && |c| % 16 == 0
    ensures |r| % 16 == 0
  {
    a + c + l
  }

  lemma TagIsHash(E: Cipher, j0: Block, a: seq<Byte>, c: seq<Byte>)
    ensures FullTag(E, j0, a, c) ==
            Xor(Ghash(HashKey(E), Zeros(16), Blocks3(Pad16(a), Pad16(c), LengthBlock(|a|, |c|))), E(j0))
  {
    hide Ghash, Mul, Xor, HashKey, Pad16, LengthBlock, FullTag;
    var h, z, b := HashKey(E), Zeros(16), LengthBlock(|a|, |c|);
    FullTagUnfolds(E, j0, a, c);
    GhashOne(h, Ghash(h, Ghash(h, z, Pad16(a)), Pad16(c)), b);
    GhashAppends(h, z, Pad16(a), Pad16(c));
    GhashAppends(h, z, Pad16(a) + Pad16(c), b);
  }

  lemma HashOfAll(h: Block, a: seq<Byte>, c: seq<Byte>, l: Block)
    requires |a| % 16 == 0 && |c| % 16 == 0
    ensures Load(Ghash(h, Zeros(16), Blocks3(a, c, l))) == Polynomial(Load(h), Elems(a) + Elems(c) + [Load(l)])
  {
    hide Ghash, Load, Polynomial, Elems;
    GhashIsPolynomial(h, a + c + l);
    ElemsAppend(a, c);
    ElemsAppend(a + c, l);
    ElemsOne(l);
  }

  const BITS128: Block := [0, 0, 0, 0, 0, 0, 0, 128, 0, 0, 0, 0, 0, 0, 0, 0]
  const TEXT128: Block := [0, 0, 0, 0, 0, 0, 0, 0, 0, 0, 0, 0, 0, 0, 0, 128]

  lemma EightBytes(b: Byte)
    ensures Value([0, 0, 0, 0, 0, 0, 0, b]) == b as nat
    ensures Value([0, 0, 0, 0, 0, 0, 0, 0]) == 0
  {
    ValueOfZeros(7);
    ValueOfZeros(8);
    assert [0, 0, 0, 0, 0, 0, 0, b][..7] == Zeros(7);
    assert [0, 0, 0, 0, 0, 0, 0, 0] == Zeros(8);
  }

  lemma {:induction false} ValueOfZeros(n: nat)
    ensures Value(Zeros(n)) == 0
  {
    if n > 0 {
      ValueOfZeros(n - 1);
      assert Zeros(n)[..n - 1] == Zeros(n - 1);
    }
  }

  lemma LengthsOf128()
    ensures IsLengths(BITS128, 128, 0) && IsLengths(TEXT128, 0, 128)
  {
    hide Value;
    EightBytes(128);
    assert (128 as Byte) as nat == 128;
    assert BITS128[..8] == [0, 0, 0, 0, 0, 0, 0, 128] && BITS128[8..] == [0, 0, 0, 0, 0, 0, 0, 0];
    assert TEXT128[8..] == [0, 0, 0, 0, 0, 0, 0, 128] && TEXT128[..8] == [0, 0, 0, 0, 0, 0, 0, 0];
  }

  lemma LowPowers(h: Elem)
    ensures PowerOf(h, 1) == h && PowerOf(h, 2) == Times(h, h)
  {
    hide Times;
    TimesOne(h);
  }

  lemma FirstTerm(h: Elem, x: Elem, rest: seq<Elem>)
    ensures Polynomial(h, [x] + rest) == Add(Times(x, PowerOf(h, |rest| + 1)), Polynomial(h, rest))
  {
    hide Times, Add, PowerOf;
    assert ([x] + rest)[1..] == rest;
  }

  lemma TwoTerms(h: Elem, x: Elem, y: Elem)
    ensures Polynomial(h, [x] + [y]) == Add(Times(x, Times(h, h)), Times(y, h))
  {
    hide Times, Add, PowerOf, Polynomial;
    LowPowers(h);
    FirstTerm(h, x, [y]);
    FirstTerm(h, y, []);
    NoTerms(h);
    assert [y] + [] == [y];
    AddZero(Times(y, h));
  }

  lemma NoTerms(h: Elem)
    ensures Polynomial(h, []) == ZERO
  {}

  lemma PadNothing()
    ensures Pad16([]) == [] && Elems([]) == []
  {}

  lemma PadWholeBlock(a: Block)
    ensures Pad16(a) == a
  {
    Pad16Appends(a, []);
  }

  /** One block b of additional data and no text: b * H^2 + 2^7 at the end of the first half * H. */
  lemma TagOfDataBlock(E: Cipher, j0: Block, b: Block)
    ensures var h := Load(HashKey(E));
            Load(FullTag(E, j0, b, [])) ==
            Add(Add(Times(Load(b), Times(h, h)), Times(Load(BITS128), h)), Load(E(j0)))
  {
    hide Times, Add, Load, Pad16, HashKey, Elems, Polynomial, FullTag, IsLengths;
    LengthsOf128();
    TagIsPolynomial(E, j0, b, [], BITS128);
    PadNothing();
    PadWholeBlock(b);
    ElemsOne(b);
    TwoTerms(Load(HashKey(E)), Load(b), Load(BITS128));
    assert [Load(b)] + [] + [Load(BITS128)] == [Load(b)] + [Load(BITS128)];
  }

  /** One block of text and no additional data: the same with the length in the second half. */
  lemma TagOfTextBlock(E: Cipher, j0: Block, b: Block)
    ensures var h := Load(HashKey(E));
            Load(FullTag(E, j0, [], b)) ==
            Add(Add(Times(Load(b), Times(h, h)), Times(Load(TEXT128), h)), Load(E(j0)))
  {
    hide Times, Add, Load, Pad16, HashKey, Elems, Polynomial, FullTag, IsLengths;
    LengthsOf128();
    TagIsPolynomial(E, j0, [], b, TEXT128);
    PadNothing();
    PadWholeBlock(b);
    ElemsOne(b);
    TwoTerms(Load(HashKey(E)), Load(b), Load(TEXT128));
    assert [] + [Load(b)] + [Load(TEXT128)] == [Load(b)] + [Load(TEXT128)];
  }

  // ---------- The pre-counter block and the ciphertext ----------

  /** An IV of twelve bytes is followed by the number one; any other is hashed with its bit length. */
  lemma PreCounterIs(E: Cipher, iv: seq<Byte>, l: Block)
    requires |iv| < TWO61 && IsLengths(l, 0, 8 * |iv|)
    ensures |iv| == 12 ==> PreCounter(E, iv)[..12] == iv && Value(PreCounter(E, iv)[12..]) == 1
    ensures |iv| != 12 ==>
              Load(PreCounter(E, iv)) == Polynomial(Load(HashKey(E)), Elems(Pad16(iv)) + [Load(l)])
  {
    hide Ghash, HashKey, Pad16, Load, Polynomial, Elems, BigEndian, Value;
    if |iv| == 12 {
      ValueOfOne();
      assert (iv + [0, 0, 0, 1])[12..] == [0, 0, 0, 1];
    } else {
      var b := LengthBlock(0, |iv|);
      LengthBlockIs(0, |iv|);
      LengthsUnique(l, b, 0, 8 * |iv|);
      BigEndianZero();
      assert Pad16(iv) + Zeros(8) + BigEndian(8 * |iv|, 8) == Pad16(iv) + b;
      GhashIsPolynomial(HashKey(E), Pad16(iv) + b);
      ElemsAppend(Pad16(iv), b);
      ElemsOne(b);
    }
  }

  lemma ValueOfOne()
    ensures Value([0, 0, 0, 1]) == 1
  {
    ValueOfZeros(3);
    assert [0, 0, 0, 1][..3] == Zeros(3);
    assert (1 as Byte) as nat == 1;
  }

  lemma BigEndianZero()
    ensures BigEndian(0, 8) == Zeros(8)
  {
    ValueOfZeros(8);
    BigEndianOfValue(Zeros(8));
  }

  /** Byte i is masked with the block function of the pre-counter block counted on by 1 + i / 16. */
  lemma SealedByte(E: Cipher, iv: seq<Byte>, p: seq<Byte>, a: seq<Byte>, t: nat, i: nat)
    requires t <= 16 && i < |p|
    ensures |Seal(E, iv, p, a, t).0| == |p|
    ensures Seal(E, iv, p, a, t).0[i] == XorByte(p[i], E(IncBy(PreCounter(E, iv), 1 + i / 16))[i % 16])
  {
    hide PreCounter, Inc32, FullTag, Gctr, XorByte, IncBy;
    KeystreamAt(E, Inc32(PreCounter(E, iv)), p, i);
    IncFirst(PreCounter(E, iv), i / 16);
    OneStep(PreCounter(E, iv), i / 16);
  }

  /** The tag is the leftmost t bytes. */
  lemma SealedTag(E: Cipher, iv: seq<Byte>, p: seq<Byte>, a: seq<Byte>, t: nat, l: Block)
    requires t <= 16 && |a| < TWO61 && |p| < TWO61 && IsLengths(l, 8 * |a|, 8 * |p|)
    ensures var (c, tag) := Seal(E, iv, p, a, t);
            && |tag| == t
            && exists full: Block :: tag == full[..t] && Load(full) ==
                 Add(Polynomial(Load(HashKey(E)), Elems(Pad16(a)) + Elems(Pad16(c)) + [Load(l)]),
                     Load(E(PreCounter(E, iv))))
  {
    hide PreCounter, Inc32, FullTag, Gctr, Polynomial, Elems, Pad16, Load, Add, IsLengths, HashKey;
    var (c, tag) := Seal(E, iv, p, a, t);
    TagIsPolynomial(E, PreCounter(E, iv), a, c, l);
  }
}
