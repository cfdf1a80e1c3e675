/** Exclusive or of 64-bit words, kept apart so that its laws are solved once, on their own. */
module Words {

  function Xor64(a: bv64, b: bv64): bv64 { a ^ b }

  lemma XorCommutes(a: bv64, b: bv64)
    ensures Xor64(a, b) == Xor64(b, a)
  {}

  lemma XorAssociatesEven(a: bv64, b: bv64, c: bv64)
    ensures Xor64(Xor64(a, b), c) & 0x5555_5555_5555_5555 == Xor64(a, Xor64(b, c)) & 0x5555_5555_5555_5555
  {}

  lemma XorAssociatesOdd(a: bv64, b: bv64, c: bv64)
    ensures Xor64(Xor64(a, b), c) & 0xaaaa_aaaa_aaaa_aaaa == Xor64(a, Xor64(b, c)) & 0xaaaa_aaaa_aaaa_aaaa
  {}

  lemma EqualHalves(x: bv64, y: bv64)
    requires x & 0x5555_5555_5555_5555 == y & 0x5555_5555_5555_5555
    requires x & 0xaaaa_aaaa_aaaa_aaaa == y & 0xaaaa_aaaa_aaaa_aaaa
    ensures x == y
  {}

  lemma XorAssociates(a: bv64, b: bv64, c: bv64)
    ensures Xor64(Xor64(a, b), c) == Xor64(a, Xor64(b, c))
  {
    hide Xor64;
    XorAssociatesEven(a, b, c);
    XorAssociatesOdd(a, b, c);
    EqualHalves(Xor64(Xor64(a, b), c), Xor64(a, Xor64(b, c)));
  }

  lemma XorZero(a: bv64)
    ensures Xor64(a, 0) == a
  {}

  lemma XorSelf(a: bv64)
    ensures Xor64(a, a) == 0
  {}
}

/**
 * Multiplication in GF(2^128) as section 6.3 of NIST SP 800-38D defines it, one bit at a time,
 * and the 4-bit table method of src/aes/gcm.c, with the algebra that connects them.
 *
 * Every bit-level fact is stated about small named word functions, so that the lemmas above
 * them are plain equational reasoning.
 */
module GhashField {
  import opened Bytes
  import opened Words

  /** A field element: the high-order bit of `hi` is the coefficient of P^0. */
  datatype Elem = Elem(hi: bv64, lo: bv64)

  const ZERO := Elem(0, 0)

  function Add(a: Elem, b: Elem): Elem { Elem(Xor64(a.hi, b.hi), Xor64(a.lo, b.lo)) }

  lemma AddCommutes(a: Elem, b: Elem)
    ensures Add(a, b) == Add(b, a)
  {
    XorCommutes(a.hi, b.hi);
    XorCommutes(a.lo, b.lo);
  }

  lemma AddAssociates(a: Elem, b: Elem, c: Elem)
    ensures Add(Add(a, b), c) == Add(a, Add(b, c))
  {
    XorAssociates(a.hi, b.hi, c.hi);
    XorAssociates(a.lo, b.lo, c.lo);
  }

  lemma AddZero(a: Elem)
    ensures Add(a, ZERO) == a == Add(ZERO, a)
  {
    XorZero(a.hi);
    XorZero(a.lo);
    AddCommutes(a, ZERO);
  }

  lemma AddSelf(a: Elem)
    ensures Add(a, a) == ZERO
  {
    XorSelf(a.hi);
    XorSelf(a.lo);
  }

  // ---------- The standard's product, section 6.3 ----------

  /** R = 11100001 || 0^120. */
  const R := Elem(0xe100_0000_0000_0000, 0)

  /** V >> 1 over the whole 128-bit block. */
  function ShiftRight(v: Elem): Elem { Elem(HighOf(v.hi), LowOf(v.hi, v.lo)) }

  function HighOf(h: bv64): bv64 { h >> 1 }

  function LowOf(h: bv64, l: bv64): bv64 { (h << 63) | (l >> 1) }

  /** V_{i+1} from V_i: the block multiplied by the indeterminate P. */
  function MulP(v: Elem): Elem {
    if Odd(v) then Add(ShiftRight(v), R) else ShiftRight(v)
  }

  /** LSB_1(V) = 1 */
  predicate Odd(v: Elem) { v.lo & 1 == 1 }

  /** Steps 3 of the multiplication algorithm for the remaining bits of X. */
  function ProductSteps(x: seq<bool>, z: Elem, v: Elem): Elem
    decreases |x|
  {
    if x == [] then z
    else ProductSteps(x[1..], if x[0] then Add(z, v) else z, MulP(v))
  }

  function ByteBits(b: Byte): (r: seq<bool>)
    ensures |r| == 8
  {
    [b & 0x80 != 0, b & 0x40 != 0, b & 0x20 != 0, b & 0x10 != 0,
     b & 0x08 != 0, b & 0x04 != 0, b & 0x02 != 0, b & 0x01 != 0]
  }

  /** The bit string x0 x1 ... of a byte string. */
  function Bits(s: seq<Byte>): (r: seq<bool>)
    ensures |r| == 8 * |s|
  {
    if s == [] then [] else ByteBits(s[0]) + Bits(s[1..])
  }

  lemma {:induction false} ZeroBits(n: nat)
    ensures forall i :: 0 <= i < 8 * n ==> !Bits(Zeros(n))[i]
  {
    if n > 0 {
      ZeroBits(n - 1);
      assert Zeros(n)[1..] == Zeros(n - 1);
    }
  }

  /** X * Y for a block X given as bytes. */
  function Product(x: Block, y: Elem): Elem { ProductSteps(Bits(x), ZERO, y) }

  // ---------- Blocks as field elements ----------

  function Word64(a: Byte, b: Byte, c: Byte, d: Byte, e: Byte, f: Byte, g: Byte, h: Byte): bv64 {
    (Word32(a, b, c, d) as bv64 << 32) | Word32(e, f, g, h) as bv64
  }

  /** GET_UINT32_BE */
  function Word32(a: Byte, b: Byte, c: Byte, d: Byte): bv32 {
    (a as bv32 << 24) | (b as bv32 << 16) | (c as bv32 << 8) | (d as bv32)
  }

  /** PUT_UINT32_BE */
  function Split32(w: bv32): (r: seq<Byte>)
    ensures |r| == 4
  {
    [((w >> 24) & 0xFF) as Byte, ((w >> 16) & 0xFF) as Byte, ((w >> 8) & 0xFF) as Byte, (w & 0xFF) as Byte]
  }

  function High32(w: bv64): bv32 { (w >> 32) as bv32 }

  function Low32(w: bv64): bv32 { (w & 0xFFFF_FFFF) as bv32 }

  function Load(b: Block): Elem {
    Elem(Word64(b[0], b[1], b[2], b[3], b[4], b[5], b[6], b[7]),
         Word64(b[8], b[9], b[10], b[11], b[12], b[13], b[14], b[15]))
  }

  function Store(e: Elem): Block {
    Split32(High32(e.hi)) + Split32(Low32(e.hi)) + Split32(High32(e.lo)) + Split32(Low32(e.lo))
  }

  lemma Word32RoundTrip(a: Byte, b: Byte, c: Byte, d: Byte)
    ensures Split32(Word32(a, b, c, d)) == [a, b, c, d]
  {}

  lemma Word64Halves(a: Byte, b: Byte, c: Byte, d: Byte, e: Byte, f: Byte, g: Byte, h: Byte)
    ensures High32(Word64(a, b, c, d, e, f, g, h)) == Word32(a, b, c, d)
    ensures Low32(Word64(a, b, c, d, e, f, g, h)) == Word32(e, f, g, h)
  {}

  /** Reading a block as two words and writing the words back changes nothing. */
  lemma StoreLoad(b: Block)
    ensures Store(Load(b)) == b
  {
    Word64Halves(b[0], b[1], b[2], b[3], b[4], b[5], b[6], b[7]);
    Word64Halves(b[8], b[9], b[10], b[11], b[12], b[13], b[14], b[15]);
    Word32RoundTrip(b[0], b[1], b[2], b[3]);
    Word32RoundTrip(b[4], b[5], b[6], b[7]);
    Word32RoundTrip(b[8], b[9], b[10], b[11]);
    Word32RoundTrip(b[12], b[13], b[14], b[15]);
  }

  // ---------- Multiplication by P is linear ----------

  lemma HighOfLinear(a: bv64, b: bv64)
    ensures HighOf(Xor64(a, b)) == Xor64(HighOf(a), HighOf(b))
  {}

  lemma LowOfLinear(a: bv64, b: bv64, c: bv64, d: bv64)
    ensures LowOf(Xor64(a, c), Xor64(b, d)) == Xor64(LowOf(a, b), LowOf(c, d))
  {}

  lemma OddLinear(a: Elem, b: Elem)
    ensures Odd(Add(a, b)) <==> Odd(a) != Odd(b)
  {}

  lemma ShiftRightLinear(a: Elem, b: Elem)
    ensures ShiftRight(Add(a, b)) == Add(ShiftRight(a), ShiftRight(b))
  {
    HighOfLinear(a.hi, b.hi);
    LowOfLinear(a.hi, a.lo, b.hi, b.lo);
  }

  /** Two sums that both contain r: the two copies cancel. */
  lemma Regroup(s: Elem, t: Elem, r: Elem)
    ensures Add(Add(s, r), Add(t, r)) == Add(s, t)
    ensures Add(Add(s, r), t) == Add(Add(s, t), r) == Add(s, Add(t, r))
  {
    AddAssociates(s, r, t);
    AddCommutes(r, t);
    AddAssociates(s, t, r);
    AddAssociates(Add(s, r), t, r);
    AddAssociates(Add(s, t), r, r);
    AddSelf(r);
    AddZero(Add(s, t));
  }

  lemma MulPLinear(a: Elem, b: Elem)
    ensures MulP(Add(a, b)) == Add(MulP(a), MulP(b))
  {
    hide Add, ShiftRight, Odd;
    ShiftRightLinear(a, b);
    OddLinear(a, b);
    Regroup(ShiftRight(a), ShiftRight(b), R);
  }

  lemma MulPZero()
    ensures MulP(ZERO) == ZERO
  {}

  // ---------- The product as a sum of multiples of V, then as Horner's rule on nibbles ----------

  function Pick(b: bool, v: Elem): Elem { if b then v else ZERO }

  /** x0 V + x1 V P + x2 V P^2 + ... */
  function Sum(x: seq<bool>, v: Elem): Elem {
    if x == [] then ZERO else Add(Pick(x[0], v), Sum(x[1..], MulP(v)))
  }

  lemma {:induction false} StepsAddSum(x: seq<bool>, z: Elem, v: Elem)
    ensures ProductSteps(x, z, v) == Add(z, Sum(x, v))
    decreases |x|
  {
    hide Add, MulP;
    if x == [] {
      AddZero(z);
    } else {
      var z' := if x[0] then Add(z, v) else z;
      StepsAddSum(x[1..], z', MulP(v));
      AddZero(z);
      AddAssociates(z, Pick(x[0], v), Sum(x[1..], MulP(v)));
    }
  }

  lemma {:induction false} SumMulP(x: seq<bool>, v: Elem)
    ensures Sum(x, MulP(v)) == MulP(Sum(x, v))
    decreases |x|
  {
    hide Add, MulP;
    MulPZero();
    if x != [] {
      SumMulP(x[1..], MulP(v));
      MulPLinear(Pick(x[0], v), Sum(x[1..], MulP(v)));
    }
  }

  function MulP4(v: Elem): Elem { MulP(MulP(MulP(MulP(v)))) }

  lemma MulP4Zero()
    ensures MulP4(ZERO) == ZERO
  {
    hide MulP;
    MulPZero();
  }

  /** The nibble with bits b0 b1 b2 b3, high-order first, times V. */
  function NibbleTimes(b0: bool, b1: bool, b2: bool, b3: bool, v: Elem): Elem {
    Add(Pick(b0, v),
        Add(Pick(b1, MulP(v)),
            Add(Pick(b2, MulP(MulP(v))), Pick(b3, MulP(MulP(MulP(v)))))))
  }

  lemma SumHead(b: bool, rest: seq<bool>, v: Elem)
    ensures Sum([b] + rest, v) == Add(Pick(b, v), Sum(rest, MulP(v)))
  {
    hide Add, MulP;
    assert ([b] + rest)[1..] == rest;
  }

  lemma AddFour(a: Elem, b: Elem, c: Elem, d: Elem, e: Elem)
    ensures Add(a, Add(b, Add(c, Add(d, e)))) == Add(Add(a, Add(b, Add(c, d))), e)
  {
    hide Add;
    AddAssociates(c, d, e);
    AddAssociates(b, Add(c, d), e);
    AddAssociates(a, Add(b, Add(c, d)), e);
  }

  lemma SumNibble(b0: bool, b1: bool, b2: bool, b3: bool, rest: seq<bool>, v: Elem)
    ensures Sum([b0, b1, b2, b3] + rest, v) == Add(NibbleTimes(b0, b1, b2, b3, v), MulP4(Sum(rest, v)))
  {
    hide Add, MulP;
    var r3, r2, r1 := [b3] + rest, [b2] + ([b3] + rest), [b1] + ([b2] + ([b3] + rest));
    assert [b0, b1, b2, b3] + rest == [b0] + r1;
    var v1, v2, v3 := MulP(v), MulP(MulP(v)), MulP(MulP(MulP(v)));
    SumHead(b0, r1, v);
    SumHead(b1, r2, v1);
    SumHead(b2, r3, v2);
    SumHead(b3, rest, v3);
    SumMulP(rest, v);
    SumMulP(rest, v1);
    SumMulP(rest, v2);
    SumMulP(rest, v3);
    AddFour(Pick(b0, v), Pick(b1, v1), Pick(b2, v2), Pick(b3, v3), Sum(rest, MulP(v3)));
  }

  /** Entry i of the tables HH/HL: i, with high-order bits for low powers of P, times H. */
  function Entry(i: nat, h: Elem): Elem {
    NibbleTimes(Digit(i, 8), Digit(i, 4), Digit(i, 2), Digit(i, 1), h)
  }

  /** Is the binary digit of weight d set in i? */
  predicate Digit(i: nat, d: nat)
    requires d > 0
  {
    i / d % 2 == 1
  }

  function LowNibble(b: Byte): (n: nat)
    ensures n < 16
  {
    (b & 0xF) as nat
  }

  function HighNibble(b: Byte): (n: nat)
    ensures n < 16
  {
    (b >> 4) as nat
  }

  /** One byte of Horner's rule: low nibble first, then the high one. */
  function HornerByte(b: Byte, z: Elem, h: Elem): Elem {
    Add(Entry(HighNibble(b), h), MulP4(Add(Entry(LowNibble(b), h), MulP4(z))))
  }

  function Horner(s: seq<Byte>, h: Elem): Elem {
    if s == [] then ZERO else HornerByte(s[0], Horner(s[1..], h), h)
  }

  lemma LowNibbleBits(b: Byte)
    ensures var n := LowNibble(b);
            && Digit(n, 8) == (b & 0x08 != 0) && Digit(n, 4) == (b & 0x04 != 0)
            && Digit(n, 2) == (b & 0x02 != 0) && Digit(n, 1) == (b & 0x01 != 0)
  {}

  lemma HighNibbleBits(b: Byte)
    ensures var n := HighNibble(b);
            && Digit(n, 8) == (b & 0x80 != 0) && Digit(n, 4) == (b & 0x40 != 0)
            && Digit(n, 2) == (b & 0x20 != 0) && Digit(n, 1) == (b & 0x10 != 0)
  {}

  lemma EntryOfNibbles(b: Byte, h: Elem)
    ensures var x := ByteBits(b);
            && Entry(HighNibble(b), h) == NibbleTimes(x[0], x[1], x[2], x[3], h)
            && Entry(LowNibble(b), h) == NibbleTimes(x[4], x[5], x[6], x[7], h)
  {
    hide NibbleTimes, LowNibble, HighNibble, Digit;
    LowNibbleBits(b);
    HighNibbleBits(b);
  }

  lemma SumByte(b: Byte, rest: seq<bool>, h: Elem)
    ensures Sum(ByteBits(b) + rest, h) == HornerByte(b, Sum(rest, h), h)
  {
    hide Add, MulP4, Sum, NibbleTimes, ByteBits, LowNibble, HighNibble, Entry;
    var x := ByteBits(b);
    var tail := [x[4], x[5], x[6], x[7]] + rest;
    assert x + rest == [x[0], x[1], x[2], x[3]] + tail;
    SumNibble(x[0], x[1], x[2], x[3], tail, h);
    SumNibble(x[4], x[5], x[6], x[7], rest, h);
    EntryOfNibbles(b, h);
  }

  lemma {:induction false} SumIsHorner(s: seq<Byte>, h: Elem)
    ensures Sum(Bits(s), h) == Horner(s, h)
  {
    hide HornerByte, ByteBits;
    if s != [] {
      SumIsHorner(s[1..], h);
      SumByte(s[0], Bits(s[1..]), h);
    }
  }

  /** The bit-by-bit product is Horner's rule on the table entries. */
  lemma ProductIsHorner(x: Block, h: Elem)
    ensures Product(x, h) == Horner(x, h)
  {
    hide Add;
    StepsAddSum(Bits(x), ZERO, h);
    AddZero(Sum(Bits(x), h));
    SumIsHorner(x, h);
  }

  // ---------- The word-level steps of the table method ----------

  /** What the four bits shifted out contribute when they come back reduced. */
  const LAST4: seq<bv64> :=
    [0x0000, 0x1c20, 0x3840, 0x2460,
     0x7080, 0x6ca0, 0x48c0, 0x54e0,
     0xe100, 0xfd20, 0xd940, 0xc560,
     0x9180, 0x8da0, 0xa9c0, 0xb5e0]

  /** The high word after the shift by one bit in the table generation. */
  function HighHalved(h: bv64, l: bv64): bv64 { Xor64(HighOf(h), Widened(Carry(l & 1))) }

  /** The bit shifted out, times the reduction constant. */
  function Carry(bit: bv64): bv32
    requires bit <= 1
  {
    (bit * 0xe100_0000) as bv32
  }

  function Widened(c: bv32): bv64 { c as bv64 << 32 }

  lemma HighHalvedIsMulP(v: Elem)
    ensures MulP(v) == Elem(HighHalved(v.hi, v.lo), LowOf(v.hi, v.lo))
  {
    HighWhenOdd(v.hi, v.lo);
    XorZero(LowOf(v.hi, v.lo));
  }

  lemma LastBit(l: bv64)
    ensures l & 1 == 0 || l & 1 == 1
  {}

  lemma CarryOfBit()
    ensures Widened(Carry(0)) == 0 && Widened(Carry(1)) == 0xe100_0000_0000_0000
  {}

  lemma HighWhenOdd(h: bv64, l: bv64)
    ensures HighHalved(h, l) == if l & 1 == 1 then Xor64(HighOf(h), 0xe100_0000_0000_0000) else HighOf(h)
  {
    hide Xor64, HighOf, Widened, Carry;
    LastBit(l);
    CarryOfBit();
    XorZero(HighOf(h));
  }

  /** zh and zl after the four-bit shift, with `rem` the four bits shifted out. */
  function High4(h: bv64, rem: nat): bv64
    requires rem < 16
  {
    (h >> 4) ^ (LAST4[rem] << 48)
  }

  function Low4(h: bv64, l: bv64): bv64 { (h << 60) | (l >> 4) }

  function Remainder(l: bv64): (r: nat)
    ensures r < 16
  {
    (l & 0xF) as nat
  }

  function ShoupShift(z: Elem): Elem { Elem(High4(z.hi, Remainder(z.lo)), Low4(z.hi, z.lo)) }

  // The four-bit shift, with the table entry spelled out bit by bit.
  function High4Bits(h: bv64, l: bv64): bv64 {
    (h >> 4) ^ (Last4Bits(l) << 48)
  }

  function Last4Bits(l: bv64): bv64 {
    ((0 - (l & 1)) & 0x1c20) ^ ((0 - ((l >> 1) & 1)) & 0x3840) ^
    ((0 - ((l >> 2) & 1)) & 0x7080) ^ ((0 - ((l >> 3) & 1)) & 0xe100)
  }

  lemma Last4IsLinear(l: bv64)
    ensures LAST4[Remainder(l)] == Last4Bits(l)
  {
    Last4Small(l & 0xF);
    Last4Mask(l);
  }

  lemma Last4Small(n: bv64)
    requires n <= 0xF
    ensures LAST4[n as nat] == Last4Bits(n)
  {}

  lemma Last4Mask(l: bv64)
    ensures Last4Bits(l & 0xF) == Last4Bits(l)
  {}

  // The shift by two bits, half way between one and four.
  function High2(h: bv64, l: bv64): bv64 {
    (h >> 2) ^ ((0 - (l & 1)) & 0x7080_0000_0000_0000) ^ ((0 - ((l >> 1) & 1)) & 0xe100_0000_0000_0000)
  }

  function Low2(h: bv64, l: bv64): bv64 { (h << 62) | (l >> 2) }

  lemma HighTwice(h: bv64, l: bv64)
    ensures HighHalved(HighHalved(h, l), LowOf(h, l)) == High2(h, l)
  {}

  lemma LowTwice(h: bv64, l: bv64)
    ensures LowOf(HighHalved(h, l), LowOf(h, l)) == Low2(h, l)
  {}

  lemma High2Twice(h: bv64, l: bv64)
    ensures High2(High2(h, l), Low2(h, l)) == High4Bits(h, l)
  {}

  lemma Low2Twice(h: bv64, l: bv64)
    ensures Low2(High2(h, l), Low2(h, l)) == Low4(h, l)
  {}

  lemma MulPTwice(v: Elem)
    ensures MulP(MulP(v)) == Elem(High2(v.hi, v.lo), Low2(v.hi, v.lo))
  {
    hide MulP, HighHalved, LowOf, High2, Low2;
    HighHalvedIsMulP(v);
    HighHalvedIsMulP(MulP(v));
    HighTwice(v.hi, v.lo);
    LowTwice(v.hi, v.lo);
  }

  /** One four-bit shift with its `last4` correction is four multiplications by P. */
  lemma ShoupShiftIsMulP4(z: Elem)
    ensures ShoupShift(z) == MulP4(z)
  {
    hide MulP, High2, Low2, Low4, Remainder, Last4Bits;
    MulPTwice(z);
    MulPTwice(MulP(MulP(z)));
    High2Twice(z.hi, z.lo);
    Low2Twice(z.hi, z.lo);
    Last4IsLinear(z.lo);
  }

  lemma NibbleSplits(b1: bool, b2: bool, b3: bool, h: Elem)
    ensures NibbleTimes(true, b1, b2, b3, h) == Add(h, NibbleTimes(false, b1, b2, b3, h))
    ensures NibbleTimes(false, true, b2, b3, h) == Add(MulP(h), NibbleTimes(false, false, b2, b3, h))
    ensures NibbleTimes(false, false, true, b3, h) == Add(MulP(MulP(h)), NibbleTimes(false, false, false, b3, h))
  {
    hide Add, MulP;
    var p3 := Pick(b3, MulP(MulP(MulP(h))));
    var p2 := Add(Pick(b2, MulP(MulP(h))), p3);
    AddZero(p3);
    AddZero(Add(MulP(MulP(h)), p3));
    AddZero(p2);
    AddZero(Add(MulP(h), p2));
    AddZero(Add(Pick(b1, MulP(h)), p2));
  }

  /** Table entries combine by addition: the doubling loop of the table generation. */
  lemma EntrySplits(i: nat, j: nat, h: Elem)
    requires i == 2 || i == 4 || i == 8
    requires 0 < j < i
    ensures Entry(i + j, h) == Add(Entry(i, h), Entry(j, h))
  {
    hide Add, MulP, NibbleTimes, Digit;
    NibbleSplits(Digit(j, 4), Digit(j, 2), Digit(j, 1), h);
    EntryPowers(h);
    DigitsOfSum(i, j, 8);
    DigitsOfSum(i, j, 4);
    DigitsOfSum(i, j, 2);
    DigitsOfSum(i, j, 1);
  }

  lemma DigitsOfSum(i: nat, j: nat, d: nat)
    requires i == 2 || i == 4 || i == 8
    requires 0 < j < i
    requires d == 1 || d == 2 || d == 4 || d == 8
    ensures Digit(i + j, d) == (d == i || Digit(j, d))
    ensures d >= i ==> !Digit(j, d)
  {}

  lemma EntryPowers(h: Elem)
    ensures Entry(0, h) == ZERO
    ensures Entry(8, h) == h
    ensures Entry(4, h) == MulP(h)
    ensures Entry(2, h) == MulP(MulP(h))
    ensures Entry(1, h) == MulP(MulP(MulP(h)))
  {
    hide Add, MulP;
    forall e: Elem ensures Add(ZERO, e) == e == Add(e, ZERO) { AddZero(e); }
  }
}
