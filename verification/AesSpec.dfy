/**
 * The cipher of FIPS-197: the S-box, the four round transformations, the cipher, the equivalent
 * inverse cipher (5.3.5) and the key expansion (5.2), with the laws that make one undo the other.
 */
module AesSpec {
  import opened Bytes
  import opened Gf256

  // ---------- The S-box, section 5.1.1 ----------

  ghost function Inverse(a: Gf): (r: Gf)
    ensures IsInverse(a, r)
  {
    hide Pow, Times;
    if a == ZERO then ZERO
    else
      var n := InverseExponent(a);
      PowInverse(n);
      Pow(255 - n)
  }

  ghost function InverseExponent(a: Gf): (n: nat)
    requires a != ZERO
    ensures n <= 255 && Pow(n) == a
  {
    assert exists n: nat :: n <= 255 && Pow(n) == a by {
      var k := Generates(a);
    }
    var n: nat :| n <= 255 && Pow(n) == a;
    n
  }

  predicate Bit(b: Byte, mask: Byte) { b & mask != 0 }

  predicate Odd5(a: bool, b: bool, c: bool, d: bool, e: bool) { ((((a != b) != c) != d) != e) }

  /** b'_i = b_i + b_(i+4) + b_(i+5) + b_(i+6) + b_(i+7) + c_i, indices modulo 8, c = {63}. */
  predicate IsAffine(x: Byte, y: Byte) {
    var x0, x1, x2, x3 := Bit(x, 0x01), Bit(x, 0x02), Bit(x, 0x04), Bit(x, 0x08);
    var x4, x5, x6, x7 := Bit(x, 0x10), Bit(x, 0x20), Bit(x, 0x40), Bit(x, 0x80);
    && Bit(y, 0x01) == !Odd5(x0, x4, x5, x6, x7)
    && Bit(y, 0x02) == !Odd5(x1, x5, x6, x7, x0)
    && Bit(y, 0x04) == Odd5(x2, x6, x7, x0, x1)
    && Bit(y, 0x08) == Odd5(x3, x7, x0, x1, x2)
    && Bit(y, 0x10) == Odd5(x4, x0, x1, x2, x3)
    && Bit(y, 0x20) == !Odd5(x5, x1, x2, x3, x4)
    && Bit(y, 0x40) == !Odd5(x6, x2, x3, x4, x5)
    && Bit(y, 0x80) == Odd5(x7, x3, x4, x5, x6)
  }

  /** x + rotl(x, 1) + rotl(x, 2) + rotl(x, 3) + rotl(x, 4) + {63} */
  function Affine(a: Gf): Gf {
    Gf(a.v ^ ((a.v << 1) | (a.v >> 7)) ^ ((a.v << 2) | (a.v >> 6)) ^
       ((a.v << 3) | (a.v >> 5)) ^ ((a.v << 4) | (a.v >> 4)) ^ 0x63)
  }

  function InvAffine(a: Gf): Gf {
    Gf(((a.v << 1) | (a.v >> 7)) ^ ((a.v << 3) | (a.v >> 5)) ^ ((a.v << 6) | (a.v >> 2)) ^ 0x05)
  }

  /** The rotations compute the bit equations of the standard. */
  lemma AffineBits(a: Gf)
    ensures IsAffine(a.v, Affine(a).v)
  {}

  lemma InvAffineUndoes(a: Gf)
    ensures InvAffine(Affine(a)) == a
  {}

  lemma AffineUndoes(a: Gf)
    ensures Affine(InvAffine(a)) == a
  {}

  ghost function SubByte(a: Gf): Gf { Affine(Inverse(a)) }

  ghost function InvSubByte(a: Gf): Gf { Inverse(InvAffine(a)) }

  lemma InverseTwice(a: Gf)
    ensures Inverse(Inverse(a)) == a
  {
    hide IsInverse;
    InverseSymmetric(a, Inverse(a));
    InverseUnique(Inverse(a), a, Inverse(Inverse(a)));
  }

  /** The two S-boxes are mutually inverse permutations. */
  lemma SubByteInverse(a: Gf)
    ensures InvSubByte(SubByte(a)) == a
    ensures SubByte(InvSubByte(a)) == a
  {
    hide Inverse, Affine, InvAffine;
    InvAffineUndoes(Inverse(a));
    InverseTwice(a);
    AffineUndoes(a);
    InverseTwice(InvAffine(a));
  }

  // ---------- Columns and the state ----------

  /** A column of the state, or a four-byte word of the key schedule. */
  datatype Col = Col(a: Gf, b: Gf, c: Gf, d: Gf)

  datatype St = St(c0: Col, c1: Col, c2: Col, c3: Col)

  function AddCol(x: Col, y: Col): Col {
    Col(Plus(x.a, y.a), Plus(x.b, y.b), Plus(x.c, y.c), Plus(x.d, y.d))
  }

  function AddRoundKey(s: St, k: St): St {
    St(AddCol(s.c0, k.c0), AddCol(s.c1, k.c1), AddCol(s.c2, k.c2), AddCol(s.c3, k.c3))
  }

  ghost function SubCol(x: Col): Col { Col(SubByte(x.a), SubByte(x.b), SubByte(x.c), SubByte(x.d)) }

  ghost function InvSubCol(x: Col): Col {
    Col(InvSubByte(x.a), InvSubByte(x.b), InvSubByte(x.c), InvSubByte(x.d))
  }

  ghost function SubBytes(s: St): St { St(SubCol(s.c0), SubCol(s.c1), SubCol(s.c2), SubCol(s.c3)) }

  ghost function InvSubBytes(s: St): St {
    St(InvSubCol(s.c0), InvSubCol(s.c1), InvSubCol(s.c2), InvSubCol(s.c3))
  }

  /** Row r moves r places to the left. */
  function ShiftRows(s: St): St {
    St(Col(s.c0.a, s.c1.b, s.c2.c, s.c3.d),
       Col(s.c1.a, s.c2.b, s.c3.c, s.c0.d),
       Col(s.c2.a, s.c3.b, s.c0.c, s.c1.d),
       Col(s.c3.a, s.c0.b, s.c1.c, s.c2.d))
  }

  function InvShiftRows(s: St): St {
    St(Col(s.c0.a, s.c3.b, s.c2.c, s.c1.d),
       Col(s.c1.a, s.c0.b, s.c3.c, s.c2.d),
       Col(s.c2.a, s.c1.b, s.c0.c, s.c3.d),
       Col(s.c3.a, s.c2.b, s.c1.c, s.c0.d))
  }

  function Sum4(p: Gf, q: Gf, r: Gf, s: Gf): Gf { Plus(Plus(p, q), Plus(r, s)) }

  function Dot(k: Byte, l: Byte, m: Byte, n: Byte, x: Col): Gf {
    Sum4(Times(Gf(k), x.a), Times(Gf(l), x.b), Times(Gf(m), x.c), Times(Gf(n), x.d))
  }

  function MixColumn(x: Col): Col {
    Col(Dot(2, 3, 1, 1, x), Dot(1, 2, 3, 1, x), Dot(1, 1, 2, 3, x), Dot(3, 1, 1, 2, x))
  }

  function InvMixColumn(x: Col): Col {
    Col(Dot(0x0e, 0x0b, 0x0d, 0x09, x), Dot(0x09, 0x0e, 0x0b, 0x0d, x),
        Dot(0x0d, 0x09, 0x0e, 0x0b, x), Dot(0x0b, 0x0d, 0x09, 0x0e, x))
  }

  function MixColumns(s: St): St { St(MixColumn(s.c0), MixColumn(s.c1), MixColumn(s.c2), MixColumn(s.c3)) }

  function InvMixColumns(s: St): St {
    St(InvMixColumn(s.c0), InvMixColumn(s.c1), InvMixColumn(s.c2), InvMixColumn(s.c3))
  }

  // ---------- Each transformation undone ----------

  lemma AddColTwice(x: Col, y: Col)
    ensures AddCol(AddCol(x, y), y) == x
  {
    PlusTwice(x.a, y.a);
    PlusTwice(x.b, y.b);
    PlusTwice(x.c, y.c);
    PlusTwice(x.d, y.d);
  }

  lemma PlusTwice(p: Gf, q: Gf)
    ensures Plus(Plus(p, q), q) == p
  {
    hide Plus;
    PlusAssociates(p, q, q);
    PlusZero(q);
    PlusZero(p);
  }

  lemma AddRoundKeyTwice(s: St, k: St)
    ensures AddRoundKey(AddRoundKey(s, k), k) == s
  {
    hide AddCol;
    AddColTwice(s.c0, k.c0);
    AddColTwice(s.c1, k.c1);
    AddColTwice(s.c2, k.c2);
    AddColTwice(s.c3, k.c3);
  }

  lemma ShiftRowsInverse(s: St)
    ensures InvShiftRows(ShiftRows(s)) == s
  {}

  lemma SubColInverse(x: Col)
    ensures InvSubCol(SubCol(x)) == x
  {
    hide SubByte, InvSubByte;
    SubByteInverse(x.a);
    SubByteInverse(x.b);
    SubByteInverse(x.c);
    SubByteInverse(x.d);
  }

  lemma SubBytesInverse(s: St)
    ensures InvSubBytes(SubBytes(s)) == s
  {
    hide SubCol, InvSubCol;
    SubColInverse(s.c0);
    SubColInverse(s.c1);
    SubColInverse(s.c2);
    SubColInverse(s.c3);
  }

  /** SubBytes and ShiftRows commute, so undoing them in the other order does as well. */
  lemma SubShiftUndone(s: St)
    ensures InvShiftRows(InvSubBytes(ShiftRows(SubBytes(s)))) == s
  {
    hide SubByte, InvSubByte;
    assert InvSubBytes(ShiftRows(SubBytes(s))) == ShiftRows(InvSubBytes(SubBytes(s)));
    SubBytesInverse(s);
    ShiftRowsInverse(s);
  }

  lemma Sum4Plus(p: Gf, q: Gf, r: Gf, s: Gf, p': Gf, q': Gf, r': Gf, s': Gf)
    ensures Sum4(Plus(p, p'), Plus(q, q'), Plus(r, r'), Plus(s, s')) == Plus(Sum4(p, q, r, s), Sum4(p', q', r', s'))
  {
    hide Plus;
    PlusSwap(p, p', q, q');
    PlusSwap(r, r', s, s');
    PlusSwap(Plus(p, q), Plus(p', q'), Plus(r, s), Plus(r', s'));
  }

  /** Adding up a four by four array by rows or by columns. */
  lemma Transpose(a: Col, b: Col, c: Col, d: Col)
    ensures Sum4(Sum4(a.a, a.b, a.c, a.d), Sum4(b.a, b.b, b.c, b.d), Sum4(c.a, c.b, c.c, c.d), Sum4(d.a, d.b, d.c, d.d))
         == Sum4(Sum4(a.a, b.a, c.a, d.a), Sum4(a.b, b.b, c.b, d.b), Sum4(a.c, b.c, c.c, d.c), Sum4(a.d, b.d, c.d, d.d))
  {
    hide Plus;
    Sum4Plus(Plus(a.a, a.b), Plus(b.a, b.b), Plus(c.a, c.b), Plus(d.a, d.b),
             Plus(a.c, a.d), Plus(b.c, b.d), Plus(c.c, c.d), Plus(d.c, d.d));
    Sum4Plus(a.a, b.a, c.a, d.a, a.b, b.b, c.b, d.b);
    Sum4Plus(a.c, b.c, c.c, d.c, a.d, b.d, c.d, d.d);
  }

  lemma TimesLinear(k: Gf, p: Gf, q: Gf)
    ensures Times(k, Plus(p, q)) == Plus(Times(k, p), Times(k, q))
  {
    hide Plus, TimesBits;
    BitsLinearRight(k, p, q, 8);
  }

  lemma TimesSum4(k: Gf, p: Gf, q: Gf, r: Gf, s: Gf)
    ensures Times(k, Sum4(p, q, r, s)) == Sum4(Times(k, p), Times(k, q), Times(k, r), Times(k, s))
  {
    hide Plus, Times;
    TimesLinear(k, p, q);
    TimesLinear(k, r, s);
    TimesLinear(k, Plus(p, q), Plus(r, s));
  }

  lemma DotLinear(k: Byte, l: Byte, m: Byte, n: Byte, x: Col, y: Col)
    ensures Dot(k, l, m, n, AddCol(x, y)) == Plus(Dot(k, l, m, n, x), Dot(k, l, m, n, y))
  {
    hide Plus, Times, Sum4;
    TimesLinear(Gf(k), x.a, y.a);
    TimesLinear(Gf(l), x.b, y.b);
    TimesLinear(Gf(m), x.c, y.c);
    TimesLinear(Gf(n), x.d, y.d);
    Sum4Plus(Times(Gf(k), x.a), Times(Gf(l), x.b), Times(Gf(m), x.c), Times(Gf(n), x.d),
             Times(Gf(k), y.a), Times(Gf(l), y.b), Times(Gf(m), y.c), Times(Gf(n), y.d));
  }

  lemma InvMixColumnLinear(x: Col, y: Col)
    ensures InvMixColumn(AddCol(x, y)) == AddCol(InvMixColumn(x), InvMixColumn(y))
  {
    hide Plus, Dot;
    DotLinear(0x0e, 0x0b, 0x0d, 0x09, x, y);
    DotLinear(0x09, 0x0e, 0x0b, 0x0d, x, y);
    DotLinear(0x0d, 0x09, 0x0e, 0x0b, x, y);
    DotLinear(0x0b, 0x0d, 0x09, 0x0e, x, y);
  }

  function Coefficient(k: Byte, l: Byte, m: Byte, n: Byte, p: Byte, q: Byte, r: Byte, s: Byte): Gf {
    Sum4(Times(Gf(k), Gf(p)), Times(Gf(l), Gf(q)), Times(Gf(m), Gf(r)), Times(Gf(n), Gf(s)))
  }

  lemma CoefficientTimes(k: Byte, l: Byte, m: Byte, n: Byte, p: Byte, q: Byte, r: Byte, s: Byte, a: Gf)
    ensures Sum4(Times(Gf(k), Times(Gf(p), a)), Times(Gf(l), Times(Gf(q), a)),
                 Times(Gf(m), Times(Gf(r), a)), Times(Gf(n), Times(Gf(s), a)))
            == Times(Coefficient(k, l, m, n, p, q, r, s), a)
  {
    hide Times, Sum4;
    TimesAssociates(Gf(k), Gf(p), a);
    TimesAssociates(Gf(l), Gf(q), a);
    TimesAssociates(Gf(m), Gf(r), a);
    TimesAssociates(Gf(n), Gf(s), a);
    Sum4Times(Times(Gf(k), Gf(p)), Times(Gf(l), Gf(q)), Times(Gf(m), Gf(r)), Times(Gf(n), Gf(s)), a);
  }

  lemma Sum4Times(p: Gf, q: Gf, r: Gf, s: Gf, a: Gf)
    ensures Times(Sum4(p, q, r, s), a) == Sum4(Times(p, a), Times(q, a), Times(r, a), Times(s, a))
  {
    hide Plus, TimesBits;
    BitsLinearLeft(p, q, a, 8);
    BitsLinearLeft(r, s, a, 8);
    BitsLinearLeft(Plus(p, q), Plus(r, s), a, 8);
  }

  lemma DotOfMix(k: Byte, l: Byte, m: Byte, n: Byte, x: Col)
    ensures Dot(k, l, m, n, MixColumn(x)) ==
            Sum4(Times(Coefficient(k, l, m, n, 2, 1, 1, 3), x.a), Times(Coefficient(k, l, m, n, 3, 2, 1, 1), x.b),
                 Times(Coefficient(k, l, m, n, 1, 3, 2, 1), x.c), Times(Coefficient(k, l, m, n, 1, 1, 3, 2), x.d))
  {
    hide Times, Sum4, Coefficient;
    var a, b := Scaled(k, 2, 3, 1, 1, x), Scaled(l, 1, 2, 3, 1, x);
    var c, d := Scaled(m, 1, 1, 2, 3, x), Scaled(n, 3, 1, 1, 2, x);
    Transpose(a, b, c, d);
    CoefficientTimes(k, l, m, n, 2, 1, 1, 3, x.a);
    CoefficientTimes(k, l, m, n, 3, 2, 1, 1, x.b);
    CoefficientTimes(k, l, m, n, 1, 3, 2, 1, x.c);
    CoefficientTimes(k, l, m, n, 1, 1, 3, 2, x.d);
    ScaledSum(k, 2, 3, 1, 1, x);
    ScaledSum(l, 1, 2, 3, 1, x);
    ScaledSum(m, 1, 1, 2, 3, x);
    ScaledSum(n, 3, 1, 1, 2, x);
  }

  function Scaled(k: Byte, p: Byte, q: Byte, r: Byte, s: Byte, x: Col): Col {
    Col(Times(Gf(k), Times(Gf(p), x.a)), Times(Gf(k), Times(Gf(q), x.b)),
        Times(Gf(k), Times(Gf(r), x.c)), Times(Gf(k), Times(Gf(s), x.d)))
  }

  lemma ScaledSum(k: Byte, p: Byte, q: Byte, r: Byte, s: Byte, x: Col)
    ensures var y := Scaled(k, p, q, r, s, x);
            Times(Gf(k), Dot(p, q, r, s, x)) == Sum4(y.a, y.b, y.c, y.d)
  {
    hide Times, Sum4;
    TimesSum4(Gf(k), Times(Gf(p), x.a), Times(Gf(q), x.b), Times(Gf(r), x.c), Times(Gf(s), x.d));
  }

  lemma SmallProducts()
    ensures Times(Gf(9), Gf(2)) == Gf(0x12) && Times(Gf(9), Gf(3)) == Gf(0x1b)
    ensures Times(Gf(11), Gf(2)) == Gf(0x16) && Times(Gf(11), Gf(3)) == Gf(0x1d)
    ensures Times(Gf(13), Gf(2)) == Gf(0x1a) && Times(Gf(13), Gf(3)) == Gf(0x17)
    ensures Times(Gf(14), Gf(2)) == Gf(0x1c) && Times(Gf(14), Gf(3)) == Gf(0x12)
  {
    hide Times;
    Steps(Gf(9), Gf(2));
    Steps(Gf(9), Gf(3));
    Steps(Gf(11), Gf(2));
    Steps(Gf(11), Gf(3));
    Steps(Gf(13), Gf(2));
    Steps(Gf(13), Gf(3));
    Steps(Gf(14), Gf(2));
    Steps(Gf(14), Gf(3));
  }

  lemma TimesByOne(a: Gf)
    ensures Times(a, ONE) == a
  {
    hide Times;
    TimesCommutes(a, ONE);
    TimesOne(a);
  }

  // A row of the inverse matrix against a column of the matrix: one on the diagonal, zero off it.

  lemma InverseRow0()
    ensures Coefficient(0x0e, 0x0b, 0x0d, 0x09, 2, 1, 1, 3) == ONE
    ensures Coefficient(0x0e, 0x0b, 0x0d, 0x09, 3, 2, 1, 1) == ZERO
    ensures Coefficient(0x0e, 0x0b, 0x0d, 0x09, 1, 3, 2, 1) == ZERO
    ensures Coefficient(0x0e, 0x0b, 0x0d, 0x09, 1, 1, 3, 2) == ZERO
  {
    hide Times;
    AllProducts();
  }

  lemma InverseRow1()
    ensures Coefficient(0x09, 0x0e, 0x0b, 0x0d, 2, 1, 1, 3) == ZERO
    ensures Coefficient(0x09, 0x0e, 0x0b, 0x0d, 3, 2, 1, 1) == ONE
    ensures Coefficient(0x09, 0x0e, 0x0b, 0x0d, 1, 3, 2, 1) == ZERO
    ensures Coefficient(0x09, 0x0e, 0x0b, 0x0d, 1, 1, 3, 2) == ZERO
  {
    hide Times;
    AllProducts();
  }

  lemma InverseRow2()
    ensures Coefficient(0x0d, 0x09, 0x0e, 0x0b, 2, 1, 1, 3) == ZERO
    ensures Coefficient(0x0d, 0x09, 0x0e, 0x0b, 3, 2, 1, 1) == ZERO
    ensures Coefficient(0x0d, 0x09, 0x0e, 0x0b, 1, 3, 2, 1) == ONE
    ensures Coefficient(0x0d, 0x09, 0x0e, 0x0b, 1, 1, 3, 2) == ZERO
  {
    hide Times;
    AllProducts();
  }

  lemma InverseRow3()
    ensures Coefficient(0x0b, 0x0d, 0x09, 0x0e, 2, 1, 1, 3) == ZERO
    ensures Coefficient(0x0b, 0x0d, 0x09, 0x0e, 3, 2, 1, 1) == ZERO
    ensures Coefficient(0x0b, 0x0d, 0x09, 0x0e, 1, 3, 2, 1) == ZERO
    ensures Coefficient(0x0b, 0x0d, 0x09, 0x0e, 1, 1, 3, 2) == ONE
  {
    hide Times;
    AllProducts();
  }

  lemma AllProducts()
    ensures Times(Gf(9), ONE) == Gf(9) && Times(Gf(9), Gf(2)) == Gf(0x12) && Times(Gf(9), Gf(3)) == Gf(0x1b)
    ensures Times(Gf(11), ONE) == Gf(11) && Times(Gf(11), Gf(2)) == Gf(0x16) && Times(Gf(11), Gf(3)) == Gf(0x1d)
    ensures Times(Gf(13), ONE) == Gf(13) && Times(Gf(13), Gf(2)) == Gf(0x1a) && Times(Gf(13), Gf(3)) == Gf(0x17)
    ensures Times(Gf(14), ONE) == Gf(14) && Times(Gf(14), Gf(2)) == Gf(0x1c) && Times(Gf(14), Gf(3)) == Gf(0x12)
  {
    hide Times;
    SmallProducts();
    TimesByOne(Gf(9));
    TimesByOne(Gf(11));
    TimesByOne(Gf(13));
    TimesByOne(Gf(14));
  }

  lemma Alone(p: Gf)
    ensures Sum4(p, ZERO, ZERO, ZERO) == p == Sum4(ZERO, p, ZERO, ZERO)
    ensures Sum4(ZERO, ZERO, p, ZERO) == p == Sum4(ZERO, ZERO, ZERO, p)
  {
    hide Plus;
    PlusZero(p);
    PlusZero(ZERO);
  }

  lemma InvMixColumnUndoes(x: Col)
    ensures InvMixColumn(MixColumn(x)) == x
  {
    hide Times, Sum4, Coefficient, MixColumn, Dot;
    InverseRow0(); InverseRow1(); InverseRow2(); InverseRow3();
    DotOfMix(0x0e, 0x0b, 0x0d, 0x09, x);
    DotOfMix(0x09, 0x0e, 0x0b, 0x0d, x);
    DotOfMix(0x0d, 0x09, 0x0e, 0x0b, x);
    DotOfMix(0x0b, 0x0d, 0x09, 0x0e, x);
    TimesOne(x.a); TimesOne(x.b); TimesOne(x.c); TimesOne(x.d);
    TimesZero(x.a); TimesZero(x.b); TimesZero(x.c); TimesZero(x.d);
    Alone(x.a); Alone(x.b); Alone(x.c); Alone(x.d);
  }

  lemma InvMixColumnsUndoes(s: St, k: St)
    ensures InvMixColumns(AddRoundKey(MixColumns(s), k)) == AddRoundKey(s, InvMixColumns(k))
  {
    hide MixColumn, InvMixColumn, AddCol;
    InvMixColumnUndoes(s.c0); InvMixColumnLinear(MixColumn(s.c0), k.c0);
    InvMixColumnUndoes(s.c1); InvMixColumnLinear(MixColumn(s.c1), k.c1);
    InvMixColumnUndoes(s.c2); InvMixColumnLinear(MixColumn(s.c2), k.c2);
    InvMixColumnUndoes(s.c3); InvMixColumnLinear(MixColumn(s.c3), k.c3);
  }

  // ---------- The cipher and the equivalent inverse cipher ----------

  /** The state after the initial key addition and r full rounds. */
  ghost function EncRounds(s: St, ks: seq<St>, r: nat): St
    requires r < |ks|
  {
    if r == 0 then AddRoundKey(s, ks[0])
    else AddRoundKey(MixColumns(ShiftRows(SubBytes(EncRounds(s, ks, r - 1)))), ks[r])
  }

  /** Section 5.1: |ks| - 1 rounds, the last one without MixColumns. */
  ghost function Cipher(s: St, ks: seq<St>): St
    requires |ks| >= 2
  {
    AddRoundKey(ShiftRows(SubBytes(EncRounds(s, ks, |ks| - 2))), ks[|ks| - 1])
  }

  ghost function DecRounds(s: St, dk: seq<St>, r: nat): St
    requires r < |dk|
  {
    if r == 0 then AddRoundKey(s, dk[0])
    else AddRoundKey(InvMixColumns(InvShiftRows(InvSubBytes(DecRounds(s, dk, r - 1)))), dk[r])
  }

  /** Section 5.3.5 */
  ghost function EqInvCipher(s: St, dk: seq<St>): St
    requires |dk| >= 2
  {
    AddRoundKey(InvShiftRows(InvSubBytes(DecRounds(s, dk, |dk| - 2))), dk[|dk| - 1])
  }

  /** The round keys in reverse, the inner ones through InvMixColumns. */
  function InvSchedule(ks: seq<St>): (dk: seq<St>)
    ensures |dk| == |ks|
  {
    seq(|ks|, i requires 0 <= i < |ks| =>
      if i == 0 || i == |ks| - 1 then ks[|ks| - 1 - i] else InvMixColumns(ks[|ks| - 1 - i]))
  }

  lemma {:induction false} RoundsUndone(s: St, ks: seq<St>, r: nat)
    requires |ks| >= 2 && r <= |ks| - 2
    ensures DecRounds(Cipher(s, ks), InvSchedule(ks), r) == ShiftRows(SubBytes(EncRounds(s, ks, |ks| - 2 - r)))
  {
    hide AddRoundKey, MixColumns, InvMixColumns, ShiftRows, InvShiftRows, SubBytes, InvSubBytes;
    var n := |ks| - 1;
    assert InvSchedule(ks)[r] == if r == 0 then ks[n] else InvMixColumns(ks[n - r]);
    if r == 0 {
      AddRoundKeyTwice(ShiftRows(SubBytes(EncRounds(s, ks, n - 1))), ks[n]);
    } else {
      RoundsUndone(s, ks, r - 1);
      var e := EncRounds(s, ks, n - r);
      var inner := ShiftRows(SubBytes(EncRounds(s, ks, n - 1 - r)));
      SubShiftUndone(e);
      InvMixColumnsUndoes(inner, ks[n - r]);
      AddRoundKeyTwice(inner, InvMixColumns(ks[n - r]));
    }
  }

  /** The equivalent inverse cipher under the inverted schedule undoes the cipher. */
  lemma CipherUndone(s: St, ks: seq<St>)
    requires |ks| >= 2
    ensures EqInvCipher(Cipher(s, ks), InvSchedule(ks)) == s
  {
    hide AddRoundKey, MixColumns, InvMixColumns, ShiftRows, InvShiftRows, SubBytes, InvSubBytes, Cipher;
    assert InvSchedule(ks)[|ks| - 1] == ks[0];
    RoundsUndone(s, ks, |ks| - 2);
    var e := EncRounds(s, ks, 0);
    SubShiftUndone(e);
    AddRoundKeyTwice(s, ks[0]);
  }

  // ---------- Key expansion, section 5.2 ----------

  function RotWord(x: Col): Col { Col(x.b, x.c, x.d, x.a) }

  /** x^(j-1), the first byte of Rcon[j], counted from zero. */
  function Rcon(j: nat): Gf {
    if j == 0 then ONE else Xtime(Rcon(j - 1))
  }

  /** w[i] for a key of |key| words. */
  ghost function KeyWord(key: seq<Col>, i: nat): Col
    requires |key| > 0
  {
    var nk := |key|;
    if i < nk then key[i]
    else if i % nk == 0 then
      AddCol(KeyWord(key, i - nk),
             AddCol(SubCol(RotWord(KeyWord(key, i - 1))), Col(Rcon(i / nk - 1), ZERO, ZERO, ZERO)))
    else if nk > 6 && i % nk == 4 then
      AddCol(KeyWord(key, i - nk), SubCol(KeyWord(key, i - 1)))
    else
      AddCol(KeyWord(key, i - nk), KeyWord(key, i - 1))
  }

  ghost function RoundKey(key: seq<Col>, r: nat): St
    requires |key| > 0
  {
    St(KeyWord(key, 4 * r), KeyWord(key, 4 * r + 1), KeyWord(key, 4 * r + 2), KeyWord(key, 4 * r + 3))
  }

  /** The nr + 1 = |key| + 7 round keys. */
  ghost function Schedule(key: seq<Col>): (ks: seq<St>)
    requires |key| > 0
    ensures |ks| == |key| + 7
  {
    seq(|key| + 7, r requires 0 <= r => RoundKey(key, r))
  }
}
