/**
 * GF(2^128) is a field. The elements of GhashField with the standard's product form a commutative
 * ring; squaring is linear and has a closed form on words, from which the solver reads that zero is
 * the only element with square zero and that zero and one are the only ones equal to their square.
 * Iterated squares of an element must repeat, and that yields its inverse.
 */
module GhashRing {
  import opened Bytes
  import opened Words
  import opened GhashField

  // ---------- Products with one ----------

  const ONE := Elem(0x8000_0000_0000_0000, 0)

  lemma UnitPowers()
    ensures MulP(ONE) == Elem(0x4000_0000_0000_0000, 0)
    ensures MulP(MulP(ONE)) == Elem(0x2000_0000_0000_0000, 0)
    ensures MulP(MulP(MulP(ONE))) == Elem(0x1000_0000_0000_0000, 0)
  {}

  /** A nibble in the four highest places. */
  function Top(n: bv64): bv64 { n << 60 }

  lemma UnitEntry(n: nat)
    requires n < 16
    ensures Entry(n, ONE) == Elem(Top(n as bv64), 0)
  {
    hide MulP;
    UnitPowers();
  }

  lemma UnitLow(b: Byte)
    ensures Entry(LowNibble(b), ONE) == Elem(Top((b & 0xF) as bv64), 0)
  {
    hide Entry, Top;
    UnitEntry(LowNibble(b));
    NibbleWord(b & 0xF);
  }

  lemma UnitHigh(b: Byte)
    ensures Entry(HighNibble(b), ONE) == Elem(Top((b >> 4) as bv64), 0)
  {
    hide Entry, Top;
    UnitEntry(HighNibble(b));
    NibbleWord(b >> 4);
  }

  lemma NibbleWord(b: Byte)
    requires b < 16
    ensures (b as nat) as bv64 == b as bv64
  {}

  /** A shift by four places, where nothing is shifted out. */
  lemma PlainShift(h: bv64, l: bv64)
    requires l & 0xF == 0
    ensures MulP4(Elem(h, l)) == Elem(h >> 4, Low4(h, l))
  {
    hide MulP4, Low4;
    ShoupShiftIsMulP4(Elem(h, l));
    PlainHigh(h, l);
  }

  lemma PlainHigh(h: bv64, l: bv64)
    requires l & 0xF == 0
    ensures High4(h, Remainder(l)) == h >> 4
  {}

  // A byte put in front of two words that end in a zero byte.
  function FrontHigh(b: Byte, h: bv64): bv64 { (b as bv64 << 56) | (h >> 8) }

  function FrontLow(h: bv64, l: bv64): bv64 { (h << 56) | (l >> 8) }

  lemma FrontWords(b: Byte, h: bv64, l: bv64)
    requires l & 0xFF == 0
    ensures Low4(h, l) & 0xF == 0
    ensures var m := Xor64(Top((b & 0xF) as bv64), h >> 4);
            && Xor64(Top((b >> 4) as bv64), m >> 4) == FrontHigh(b, h)
            && Low4(m, Low4(h, l)) == FrontLow(h, l)
  {}

  lemma UnitByte(b: Byte, h: bv64, l: bv64)
    requires l & 0xFF == 0
    ensures HornerByte(b, Elem(h, l), ONE) == Elem(FrontHigh(b, h), FrontLow(h, l))
  {
    hide Entry, MulP4, Top, Low4, FrontHigh, FrontLow, LowNibble, HighNibble, Xor64;
    FrontWords(b, h, l);
    LastByteNibble(l);
    UnitLow(b);
    UnitHigh(b);
    PlainShift(h, l);
    var l', m := Low4(h, l), Xor64(Top((b & 0xF) as bv64), h >> 4);
    XorZero(l');
    XorCommutes(0, l');
    PlainShift(m, l');
    XorZero(Low4(m, l'));
    XorCommutes(0, Low4(m, l'));
  }

  lemma LastByteNibble(l: bv64)
    requires l & 0xFF == 0
    ensures l & 0xF == 0
  {}

  lemma LoadFront(b: Byte, t: Block)
    requires t[15] == 0
    ensures var e := Load(t);
            && e.lo & 0xFF == 0
            && Load([b] + t[..15]) == Elem(FrontHigh(b, e.hi), FrontLow(e.hi, e.lo))
  {
    hide Word64, FrontHigh, FrontLow;
    var u := [b] + t[..15];
    FrontWord(b, t[0], t[1], t[2], t[3], t[4], t[5], t[6], t[7]);
    LastOfWord(t[0], t[1], t[2], t[3], t[4], t[5], t[6], t[7], Load(t).lo);
    FrontWord(t[7], t[8], t[9], t[10], t[11], t[12], t[13], t[14], t[15]);
    LastOfWord(t[8], t[9], t[10], t[11], t[12], t[13], t[14], t[15], 0);
  }

  lemma FrontWord(b: Byte, c: Byte, d: Byte, e: Byte, f: Byte, g: Byte, h: Byte, i: Byte, j: Byte)
    ensures FrontHigh(b, Word64(c, d, e, f, g, h, i, j)) == Word64(b, c, d, e, f, g, h, i)
  {}

  lemma LastOfWord(p: Byte, q: Byte, r: Byte, s: Byte, t: Byte, u: Byte, v: Byte, b: Byte, l: bv64)
    ensures FrontLow(Word64(p, q, r, s, t, u, v, b), l) == FrontHigh(b, l)
    ensures b == 0 ==> Word64(p, q, r, s, t, u, v, b) & 0xFF == 0
  {}

  lemma {:induction false} UnitHorner(s: seq<Byte>)
    requires |s| <= 16
    ensures Horner(s, ONE) == Load(PadBlock(s))
  {
    hide HornerByte, Load, FrontHigh, FrontLow;
    if s == [] {
      LoadZeros();
      assert PadBlock(s) == Zeros(16);
    } else {
      UnitHorner(s[1..]);
      var t := PadBlock(s[1..]);
      LoadFront(s[0], t);
      assert [s[0]] + t[..15] == PadBlock(s);
      UnitByte(s[0], Load(t).hi, Load(t).lo);
    }
  }

  lemma LoadZeros()
    ensures Load(Zeros(16)) == ZERO
  {}

  /** The bits of a block pick the powers of P that add up to it. */
  lemma UnitSum(x: Block)
    ensures Sum(Bits(x), ONE) == Load(x)
  {
    hide Sum, Bits, Horner, Load;
    SumIsHorner(x, ONE);
    UnitHorner(x);
    assert PadBlock(x) == x;
  }

  lemma SplitWord(w: bv64)
    ensures var r := Split32(High32(w)) + Split32(Low32(w));
            Word64(r[0], r[1], r[2], r[3], r[4], r[5], r[6], r[7]) == w
  {}

  lemma LoadStore(e: Elem)
    ensures Load(Store(e)) == e
  {
    hide Word64, Split32, High32, Low32;
    SplitWord(e.hi);
    SplitWord(e.lo);
    var s := Store(e);
    assert s[..8] == Split32(High32(e.hi)) + Split32(Low32(e.hi));
    assert s[8..] == Split32(High32(e.lo)) + Split32(Low32(e.lo));
  }

  // ---------- The ring ----------

  function ElemBits(a: Elem): (x: seq<bool>)
    ensures |x| == 128
  {
    Bits(Store(a))
  }

  function Times(a: Elem, b: Elem): Elem { Sum(ElemBits(a), b) }

  lemma TimesIsProduct(x: Block, b: Elem)
    ensures Times(Load(x), b) == Product(x, b)
  {
    hide Load, Store, Bits, Sum, Add;
    StoreLoad(x);
    StepsAddSum(Bits(x), ZERO, b);
    AddZero(Sum(Bits(x), b));
  }

  lemma AddSwap(a: Elem, b: Elem, c: Elem, d: Elem)
    ensures Add(Add(a, b), Add(c, d)) == Add(Add(a, c), Add(b, d))
  {
    hide Add;
    AddAssociates(a, b, Add(c, d));
    AddAssociates(b, c, d);
    AddCommutes(b, c);
    AddAssociates(c, b, d);
    AddAssociates(a, c, Add(b, d));
  }

  lemma {:induction false} SumLinear(x: seq<bool>, a: Elem, b: Elem)
    ensures Sum(x, Add(a, b)) == Add(Sum(x, a), Sum(x, b))
    decreases |x|
  {
    hide Add, MulP;
    AddZero(ZERO);
    if x != [] {
      MulPLinear(a, b);
      SumLinear(x[1..], MulP(a), MulP(b));
      AddSwap(Pick(x[0], a), Pick(x[0], b), Sum(x[1..], MulP(a)), Sum(x[1..], MulP(b)));
    }
  }

  lemma {:induction false} SumZero(x: seq<bool>)
    ensures Sum(x, ZERO) == ZERO
  {
    hide Add, MulP;
    if x != [] {
      MulPZero();
      SumZero(x[1..]);
      AddZero(ZERO);
    }
  }

  lemma {:induction false} SumsCommute(x: seq<bool>, y: seq<bool>, v: Elem)
    ensures Sum(x, Sum(y, v)) == Sum(y, Sum(x, v))
    decreases |x|
  {
    hide Add, MulP;
    SumZero(y);
    if x != [] {
      SumMulP(y, v);
      SumsCommute(x[1..], y, MulP(v));
      SumLinear(y, Pick(x[0], v), Sum(x[1..], MulP(v)));
    }
  }

  lemma TimesOne(a: Elem)
    ensures Times(a, ONE) == a
  {
    hide Load, Store, Bits, Sum;
    UnitSum(Store(a));
    LoadStore(a);
  }

  lemma TimesCommutes(a: Elem, b: Elem)
    ensures Times(a, b) == Times(b, a)
  {
    hide Sum, ElemBits;
    SumsCommute(ElemBits(a), ElemBits(b), ONE);
    TimesOne(a);
    TimesOne(b);
  }

  lemma TimesAssociates(a: Elem, b: Elem, c: Elem)
    ensures Times(Times(a, b), c) == Times(a, Times(b, c))
  {
    hide Sum, ElemBits;
    TimesCommutes(Times(a, b), c);
    SumsCommute(ElemBits(c), ElemBits(a), b);
    TimesCommutes(c, b);
  }

  lemma TimesDistributes(a: Elem, b: Elem, c: Elem)
    ensures Times(a, Add(b, c)) == Add(Times(a, b), Times(a, c))
  {
    hide Sum, ElemBits, Add;
    SumLinear(ElemBits(a), b, c);
  }

  lemma TimesZero(a: Elem)
    ensures Times(a, ZERO) == ZERO == Times(ZERO, a)
  {
    hide Sum, ElemBits;
    SumZero(ElemBits(a));
    TimesCommutes(a, ZERO);
  }

  lemma TimesMulP(a: Elem, b: Elem)
    ensures Times(MulP(a), b) == MulP(Times(a, b)) == Times(a, MulP(b))
  {
    hide Sum, ElemBits, MulP;
    SumMulP(ElemBits(a), b);
    SumMulP(ElemBits(b), a);
    TimesCommutes(a, b);
    TimesCommutes(MulP(a), b);
  }

  // ---------- Squares ----------

  function Square(a: Elem): Elem { Times(a, a) }

  lemma SquareAdds(a: Elem, b: Elem)
    ensures Square(Add(a, b)) == Add(Square(a), Square(b))
  {
    hide Times, Add;
    var s := Add(a, b);
    TimesDistributes(s, a, b);
    TimesCommutes(s, a);
    TimesCommutes(s, b);
    TimesDistributes(a, a, b);
    TimesDistributes(b, a, b);
    TimesCommutes(a, b);
    var m := Times(a, b);
    AddCommutes(m, Square(b));
    Regroup(Square(a), Square(b), m);
  }

  lemma SquareMulP(a: Elem)
    ensures Square(MulP(a)) == MulP(MulP(Square(a)))
  {
    hide Times, MulP;
    TimesMulP(a, MulP(a));
    TimesMulP(a, a);
  }

  /** x0 V + x1 V P^2 + x2 V P^4 + ... */
  function Sum2(x: seq<bool>, v: Elem): Elem {
    if x == [] then ZERO else Add(Pick(x[0], v), Sum2(x[1..], MulP(MulP(v))))
  }

  lemma {:induction false} SquareOfSum(x: seq<bool>, v: Elem)
    ensures Square(Sum(x, v)) == Sum2(x, Square(v))
    decreases |x|
  {
    hide Square, Add, MulP;
    SquareOfZero();
    if x != [] {
      SquareMulP(v);
      SquareOfSum(x[1..], MulP(v));
      SquareAdds(Pick(x[0], v), Sum(x[1..], MulP(v)));
    }
  }

  lemma SquareOfZero()
    ensures Square(ZERO) == ZERO && Square(ONE) == ONE
  {
    hide Times;
    TimesZero(ZERO);
    TimesOne(ONE);
  }

  /** Every second bit, with zeros in between. */
  function Spread(x: seq<bool>): (r: seq<bool>)
    ensures |r| == 2 * |x|
  {
    if x == [] then [] else [x[0], false] + Spread(x[1..])
  }

  lemma {:induction false} Sum2IsSpread(x: seq<bool>, v: Elem)
    ensures Sum2(x, v) == Sum(Spread(x), v)
    decreases |x|
  {
    hide Add, MulP;
    if x != [] {
      Sum2IsSpread(x[1..], MulP(MulP(v)));
      var y := [false] + Spread(x[1..]);
      assert Spread(x) == [x[0]] + y;
      SumHead(x[0], y, v);
      SumHead(false, Spread(x[1..]), MulP(v));
      AddZero(Sum(Spread(x[1..]), MulP(MulP(v))));
    }
  }

  // ---------- Squares on bytes ----------

  function SpreadHigh(b: Byte): Byte { (b & 0x80) | ((b & 0x40) >> 1) | ((b & 0x20) >> 2) | ((b & 0x10) >> 3) }

  function SpreadLow(b: Byte): Byte { ((b & 0x08) << 4) | ((b & 0x04) << 3) | ((b & 0x02) << 2) | ((b & 0x01) << 1) }

  lemma SpreadHighBits(b: Byte)
    ensures ByteBits(SpreadHigh(b)) ==
            [b & 0x80 != 0, false, b & 0x40 != 0, false, b & 0x20 != 0, false, b & 0x10 != 0, false]
  {}

  lemma SpreadLowBits(b: Byte)
    ensures ByteBits(SpreadLow(b)) ==
            [b & 0x08 != 0, false, b & 0x04 != 0, false, b & 0x02 != 0, false, b & 0x01 != 0, false]
  {}

  function SpreadBytes(s: seq<Byte>): (r: seq<Byte>)
    ensures |r| == 2 * |s|
  {
    if s == [] then [] else [SpreadHigh(s[0]), SpreadLow(s[0])] + SpreadBytes(s[1..])
  }

  lemma {:induction false} SpreadAppends(x: seq<bool>, y: seq<bool>)
    ensures Spread(x + y) == Spread(x) + Spread(y)
    decreases |x|
  {
    if x == [] {
      assert x + y == y;
    } else {
      assert (x + y)[1..] == x[1..] + y;
      SpreadAppends(x[1..], y);
    }
  }

  lemma SpreadEight(x: seq<bool>)
    requires |x| == 8
    ensures Spread(x) == [x[0], false, x[1], false, x[2], false, x[3], false]
                         + [x[4], false, x[5], false, x[6], false, x[7], false]
  {
    var a, b := x[..4], x[4..];
    assert x == a + b;
    SpreadAppends(a, b);
    SpreadFour(a);
    SpreadFour(b);
  }

  lemma SpreadFour(x: seq<bool>)
    requires |x| == 4
    ensures Spread(x) == [x[0], false, x[1], false, x[2], false, x[3], false]
  {
    assert x[1..][1..] == x[2..] && x[2..][1..] == x[3..] && x[3..][1..] == [];
    assert Spread(x[3..]) == [x[3], false];
    assert Spread(x[2..]) == [x[2], false] + Spread(x[3..]);
  }

  lemma SpreadByte(b: Byte)
    ensures Spread(ByteBits(b)) == ByteBits(SpreadHigh(b)) + ByteBits(SpreadLow(b))
  {
    hide SpreadHigh, SpreadLow, Spread;
    SpreadEight(ByteBits(b));
    SpreadHighBits(b);
    SpreadLowBits(b);
  }

  lemma TwoBytes(a: Byte, b: Byte, s: seq<Byte>)
    ensures Bits([a, b] + s) == ByteBits(a) + ByteBits(b) + Bits(s)
  {
    hide ByteBits;
    var t := [b] + s;
    assert [a, b] + s == [a] + t;
    assert ([a] + t)[1..] == t && t[1..] == s;
  }

  lemma {:induction false} SpreadOfBits(s: seq<Byte>)
    ensures Spread(Bits(s)) == Bits(SpreadBytes(s))
  {
    hide ByteBits, SpreadHigh, SpreadLow, Spread;
    if s == [] {
      NothingSpread();
    } else {
      SpreadOfBits(s[1..]);
      SpreadAppends(ByteBits(s[0]), Bits(s[1..]));
      SpreadByte(s[0]);
      TwoBytes(SpreadHigh(s[0]), SpreadLow(s[0]), SpreadBytes(s[1..]));
    }
  }

  lemma NothingSpread()
    ensures Spread([]) == []
  {}

  lemma {:induction false} BitsAppend(a: seq<Byte>, b: seq<Byte>)
    ensures Bits(a + b) == Bits(a) + Bits(b)
  {
    hide ByteBits;
    if a == [] {
      assert a + b == b;
    } else {
      assert (a + b)[1..] == a[1..] + b;
      BitsAppend(a[1..], b);
    }
  }

  // ---------- Powers of P ----------

  /** v times P^n */
  function Power(n: nat, v: Elem): Elem {
    if n == 0 then v else MulP(Power(n - 1, v))
  }

  lemma {:induction false} PowerAdds(n: nat, a: Elem, b: Elem)
    ensures Power(n, Add(a, b)) == Add(Power(n, a), Power(n, b))
  {
    hide Add, MulP;
    if n > 0 {
      PowerAdds(n - 1, a, b);
      MulPLinear(Power(n - 1, a), Power(n - 1, b));
    }
  }

  lemma {:induction false} PowerOfMulP(n: nat, v: Elem)
    ensures Power(n, MulP(v)) == MulP(Power(n, v))
  {
    hide MulP;
    if n > 0 {
      PowerOfMulP(n - 1, v);
    }
  }

  lemma {:induction false} SumAppends(x: seq<bool>, y: seq<bool>, v: Elem)
    ensures Sum(x + y, v) == Add(Sum(x, v), Power(|x|, Sum(y, v)))
    decreases |x|
  {
    hide Add, MulP;
    if x == [] {
      assert x + y == y;
      AddZero(Sum(y, v));
    } else {
      assert (x + y)[1..] == x[1..] + y;
      SumAppends(x[1..], y, MulP(v));
      SumMulP(y, v);
      PowerOfMulP(|x| - 1, Sum(y, v));
      AddAssociates(Pick(x[0], v), Sum(x[1..], MulP(v)), Power(|x|, Sum(y, v)));
    }
  }

  lemma {:induction false} OnlyLastBit(x: seq<bool>, v: Elem)
    requires x != [] && x[|x| - 1] && forall i :: 0 <= i < |x| - 1 ==> !x[i]
    ensures Sum(x, v) == Power(|x| - 1, v)
    decreases |x|
  {
    hide Add, MulP;
    if |x| == 1 {
      assert x[1..] == [];
      AddZero(v);
    } else {
      OnlyLastBit(x[1..], MulP(v));
      AddZero(Sum(x[1..], MulP(v)));
      PowerOfMulP(|x| - 2, v);
    }
  }

  const LAST: Block := Zeros(15) + [1]

  lemma LastBlock()
    ensures Load(LAST) == Elem(0, 1)
    ensures var x := Bits(LAST); x[127] && forall i :: 0 <= i < 127 ==> !x[i]
  {
    hide Bits;
    BitsAppend(Zeros(15), [1]);
    ZeroBits(15);
    OneByte();
    assert Load(LAST) == Elem(0, 1) by { LastWords(); }
  }

  lemma OneByte()
    ensures Bits([1]) == [false, false, false, false, false, false, false, true]
  {
    assert [1 as Byte][1..] == [];
  }

  lemma LastWords()
    ensures Word64(0, 0, 0, 0, 0, 0, 0, 0) == 0 && Word64(0, 0, 0, 0, 0, 0, 0, 1) == 1
  {}

  /** P^128 is 1 + P + P^2 + P^7. */
  lemma Reduces()
    ensures Power(128, ONE) == R
  {
    hide Sum, Bits, Load;
    LastBlock();
    UnitSum(LAST);
    OnlyLastBit(Bits(LAST), ONE);
    LastReduces();
  }

  lemma LastReduces()
    ensures MulP(Elem(0, 1)) == R
  {}

  lemma {:induction false} PowerIsTimes(n: nat, v: Elem)
    ensures Power(n, v) == Times(Power(n, ONE), v)
  {
    hide MulP, Times;
    if n == 0 {
      TimesOne(v);
      TimesCommutes(v, ONE);
    } else {
      PowerIsTimes(n - 1, v);
      TimesMulP(Power(n - 1, ONE), v);
    }
  }

  function Folded(v: Elem): Elem { Add(Add(v, Power(1, v)), Add(Power(2, v), Power(7, v))) }

  lemma RIsFolded()
    ensures R == Folded(ONE)
  {
    assert MulP(ONE) == Elem(0x4000_0000_0000_0000, 0);
    assert MulP(Elem(0x4000_0000_0000_0000, 0)) == Elem(0x2000_0000_0000_0000, 0);
    assert MulP(Elem(0x2000_0000_0000_0000, 0)) == Elem(0x1000_0000_0000_0000, 0);
    assert MulP(Elem(0x1000_0000_0000_0000, 0)) == Elem(0x0800_0000_0000_0000, 0);
    assert MulP(Elem(0x0800_0000_0000_0000, 0)) == Elem(0x0400_0000_0000_0000, 0);
    assert MulP(Elem(0x0400_0000_0000_0000, 0)) == Elem(0x0200_0000_0000_0000, 0);
    assert MulP(Elem(0x0200_0000_0000_0000, 0)) == Elem(0x0100_0000_0000_0000, 0);
    hide MulP;
    PowerSteps(ONE);
  }

  lemma PowerSteps(v: Elem)
    ensures Power(1, v) == MulP(v) && Power(2, v) == MulP(MulP(v))
    ensures Power(7, v) == MulP(MulP(MulP(MulP(MulP(MulP(MulP(v)))))))
  {
    hide MulP;
    assert Power(3, v) == MulP(Power(2, v));
    assert Power(5, v) == MulP(Power(4, v));
    assert Power(7, v) == MulP(Power(6, v));
  }

  lemma PowerFolds(v: Elem)
    ensures Power(128, v) == Folded(v)
  {
    hide Times, Add, Power;
    PowerIsTimes(128, v);
    Reduces();
    RIsFolded();
    var p1, p2, p7 := Power(1, ONE), Power(2, ONE), Power(7, ONE);
    TimesCommutes(R, v);
    TimesDistributes(v, Add(ONE, p1), Add(p2, p7));
    TimesDistributes(v, ONE, p1);
    TimesDistributes(v, p2, p7);
    TimesOne(v);
    TimesCommutes(v, p1);
    TimesCommutes(v, p2);
    TimesCommutes(v, p7);
    PowerIsTimes(1, v);
    PowerIsTimes(2, v);
    PowerIsTimes(7, v);
  }

  // ---------- Squares on words ----------

  lemma {:induction false} SpreadAt(s: seq<Byte>, i: nat)
    requires i < |s|
    ensures SpreadBytes(s)[2 * i] == SpreadHigh(s[i]) && SpreadBytes(s)[2 * i + 1] == SpreadLow(s[i])
  {
    hide SpreadHigh, SpreadLow;
    if i > 0 {
      SpreadAt(s[1..], i - 1);
    }
  }

  function Byte0(w: bv32): Byte { ((w >> 24) & 0xFF) as Byte }

  function Byte1(w: bv32): Byte { ((w >> 16) & 0xFF) as Byte }

  function Byte2(w: bv32): Byte { ((w >> 8) & 0xFF) as Byte }

  function Byte3(w: bv32): Byte { (w & 0xFF) as Byte }

  /** A half word with zeros between its bits. */
  function SpreadHalf(w: bv32): bv64 {
    Word64(SpreadHigh(Byte0(w)), SpreadLow(Byte0(w)), SpreadHigh(Byte1(w)), SpreadLow(Byte1(w)),
           SpreadHigh(Byte2(w)), SpreadLow(Byte2(w)), SpreadHigh(Byte3(w)), SpreadLow(Byte3(w)))
  }

  function SpreadTop(w: bv64): bv64 { SpreadHalf(High32(w)) }

  function SpreadBottom(w: bv64): bv64 { SpreadHalf(Low32(w)) }

  lemma SplitBytes(a: Byte, b: Byte, c: Byte, d: Byte)
    ensures var w := Word32(a, b, c, d); Byte0(w) == a && Byte1(w) == b && Byte2(w) == c && Byte3(w) == d
  {}

  lemma SpreadWord(a: Byte, b: Byte, c: Byte, d: Byte, e: Byte, f: Byte, g: Byte, h: Byte)
    ensures var w := Word64(a, b, c, d, e, f, g, h);
            && Word64(SpreadHigh(a), SpreadLow(a), SpreadHigh(b), SpreadLow(b),
                      SpreadHigh(c), SpreadLow(c), SpreadHigh(d), SpreadLow(d)) == SpreadTop(w)
            && Word64(SpreadHigh(e), SpreadLow(e), SpreadHigh(f), SpreadLow(f),
                      SpreadHigh(g), SpreadLow(g), SpreadHigh(h), SpreadLow(h)) == SpreadBottom(w)
  {
    hide Word64, Word32, SpreadHigh, SpreadLow, Byte0, Byte1, Byte2, Byte3, High32, Low32;
    Word64Halves(a, b, c, d, e, f, g, h);
    SplitBytes(a, b, c, d);
    SplitBytes(e, f, g, h);
  }

  function SpreadElem(w: bv64): Elem { Elem(SpreadTop(w), SpreadBottom(w)) }

  lemma LoadSpread(s: Block)
    ensures Load(SpreadBytes(s)[..16]) == SpreadElem(Load(s).hi)
    ensures Load(SpreadBytes(s)[16..]) == SpreadElem(Load(s).lo)
  {
    hide SpreadHigh, SpreadLow, SpreadTop, SpreadBottom, Word64, SpreadBytes;
    SpreadWord(s[0], s[1], s[2], s[3], s[4], s[5], s[6], s[7]);
    SpreadWord(s[8], s[9], s[10], s[11], s[12], s[13], s[14], s[15]);
    SpreadAt(s, 0);
    SpreadAt(s, 1);
    SpreadAt(s, 2);
    SpreadAt(s, 3);
    SpreadAt(s, 4);
    SpreadAt(s, 5);
    SpreadAt(s, 6);
    SpreadAt(s, 7);
    SpreadAt(s, 8);
    SpreadAt(s, 9);
    SpreadAt(s, 10);
    SpreadAt(s, 11);
    SpreadAt(s, 12);
    SpreadAt(s, 13);
    SpreadAt(s, 14);
    SpreadAt(s, 15);
  }

  /** The square on the two words. */
  lemma SquareWords(e: Elem)
    ensures Square(e) == Add(SpreadElem(e.hi), Folded(SpreadElem(e.lo)))
  {
    hide Square, Sum, Sum2, Bits, Spread, SpreadBytes, Load, Store, SpreadElem, Add, Folded, Power;
    var s := Store(e);
    LoadStore(e);
    UnitSum(s);
    SquareOfZero();
    SquareOfSum(Bits(s), ONE);
    Sum2IsSpread(Bits(s), ONE);
    SpreadOfBits(s);
    var t := SpreadBytes(s);
    var a, b := t[..16], t[16..];
    assert t == a + b;
    BitsAppend(a, b);
    SumAppends(Bits(a), Bits(b), ONE);
    UnitSum(a);
    UnitSum(b);
    PowerFolds(Load(b));
    LoadSpread(s);
  }

  // The same, with the whole computation spelled out on words for the solver.

  function HalfBits(w: bv64): bv64 {
    var a := ((w & 0xFFFF_0000_0000_0000) | ((w & 0x0000_FFFF_0000_0000) >> 16));
    var b := (a | (a >> 8)) & 0xFF00_FF00_FF00_FF00;
    var c := (b | (b >> 4)) & 0xF0F0_F0F0_F0F0_F0F0;
    var d := (c | (c >> 2)) & 0xCCCC_CCCC_CCCC_CCCC;
    (d | (d >> 1)) & 0xAAAA_AAAA_AAAA_AAAA
  }

  lemma HalfIsBits(w: bv64)
    ensures SpreadTop(w) == HalfBits(w)
  {}

  function HighP(h: bv64, l: bv64): bv64 { Xor64(HighOf(h), CarryMask(l & 1)) }

  function CarryMask(bit: bv64): bv64 { (0 - bit) & 0xe100_0000_0000_0000 }

  lemma MulPWords(v: Elem)
    ensures MulP(v) == Elem(HighP(v.hi, v.lo), LowOf(v.hi, v.lo))
  {
    hide LowOf, HighOf, Xor64, CarryMask;
    LastBit(v.lo);
    MaskOfBit();
    XorZero(HighOf(v.hi));
    XorZero(LowOf(v.hi, v.lo));
  }

  lemma MaskOfBit()
    ensures CarryMask(0) == 0 && CarryMask(1) == 0xe100_0000_0000_0000
  {}

  lemma MulP4Words(v: Elem)
    ensures MulP4(v) == Elem(High4Bits(v.hi, v.lo), Low4(v.hi, v.lo))
  {
    hide MulP, High2, Low2, Low4, High4Bits;
    MulPTwice(v);
    MulPTwice(MulP(MulP(v)));
    High2Twice(v.hi, v.lo);
    Low2Twice(v.hi, v.lo);
  }

  function SquareHigh(h: bv64, l: bv64): bv64 {
    var a, b := HalfBits(l), HalfBits(l << 32);
    var a1, b1 := HighP(a, b), LowOf(a, b);
    var a3, b3 := High2(a1, b1), Low2(a1, b1);
    Xor64(HalfBits(h), Xor64(Xor64(a, a1), Xor64(High2(a, b), High4Bits(a3, b3))))
  }

  function SquareLow(h: bv64, l: bv64): bv64 {
    var a, b := HalfBits(l), HalfBits(l << 32);
    var a1, b1 := HighP(a, b), LowOf(a, b);
    var a3, b3 := High2(a1, b1), Low2(a1, b1);
    Xor64(HalfBits(h << 32), Xor64(Xor64(b, b1), Xor64(Low2(a, b), Low4(a3, b3))))
  }

  lemma BottomIsBits(w: bv64)
    ensures SpreadBottom(w) == HalfBits(w << 32)
  {
    hide HalfBits, SpreadHalf;
    HalfIsBits(w << 32);
    LowShifted(w);
  }

  lemma LowShifted(w: bv64)
    ensures High32(w << 32) == Low32(w)
  {}

  lemma FoldedWords(a: bv64, b: bv64)
    ensures var a1, b1 := HighP(a, b), LowOf(a, b);
            var a3, b3 := High2(a1, b1), Low2(a1, b1);
            Folded(Elem(a, b)) == Elem(Xor64(Xor64(a, a1), Xor64(High2(a, b), High4Bits(a3, b3))),
                                       Xor64(Xor64(b, b1), Xor64(Low2(a, b), Low4(a3, b3))))
  {
    hide MulP, HighP, LowOf, High2, Low2, High4Bits, Low4, Power, Xor64;
    var v := Elem(a, b);
    PowerSteps(v);
    MulPWords(v);
    MulPTwice(v);
    MulPTwice(MulP(v));
    MulP4Words(MulP(MulP(MulP(v))));
  }

  lemma SquareIs(e: Elem)
    ensures Square(e) == Elem(SquareHigh(e.hi, e.lo), SquareLow(e.hi, e.lo))
  {
    hide Square, HighP, LowOf, High2, Low2, High4Bits, Low4, Folded, HalfBits, SpreadTop, SpreadBottom, Xor64;
    SquareWords(e);
    HalfIsBits(e.hi);
    HalfIsBits(e.lo);
    BottomIsBits(e.hi);
    BottomIsBits(e.lo);
    FoldedWords(SpreadTop(e.lo), SpreadBottom(e.lo));
  }

  lemma FixedWords(h: bv64, l: bv64)
    requires SquareHigh(h, l) == h && SquareLow(h, l) == l
    ensures l == 0 && (h == 0 || h == 0x8000_0000_0000_0000)
  {
    hide SquareHigh, SquareLow;
    FixedLastBit(h, l);
    FixedLow(h, l);
    FixedHigh(h);
  }

  lemma FixedLastBit(h: bv64, l: bv64)
    requires SquareHigh(h, l) == h && SquareLow(h, l) == l
    ensures l & 1 == 0
  {
    hide SquareHigh, SquareLow;
    FixedLastBitClear(h, l);
    FixedLastBitSet(h, l);
  }

  lemma FixedLastBitClear(h: bv64, l: bv64)
    requires SquareHigh(h, l) == h && SquareLow(h, l) == l
    ensures h & 2 == 0 ==> l & 1 == 0
  {}

  lemma FixedLastBitSet(h: bv64, l: bv64)
    requires SquareHigh(h, l) == h && SquareLow(h, l) == l
    ensures h & 2 != 0 ==> l & 1 == 0
  {}

  lemma FixedLow(h: bv64, l: bv64)
    requires SquareHigh(h, l) == h && SquareLow(h, l) == l && l & 1 == 0
    ensures l == 0
  {
    hide SquareHigh, SquareLow;
    FixedLastBits(h, l);
    FixedOtherBits(h, l);
  }

  lemma FixedLastBits(h: bv64, l: bv64)
    requires SquareHigh(h, l) == h && SquareLow(h, l) == l && l & 1 == 0
    ensures l & 3 == 0
  {}

  lemma FixedOtherBits(h: bv64, l: bv64)
    requires SquareHigh(h, l) == h && SquareLow(h, l) == l && l & 3 == 0
    ensures l == 0
  {}

  lemma FixedHigh(h: bv64)
    requires SquareHigh(h, 0) == h && SquareLow(h, 0) == 0
    ensures h == 0 || h == 0x8000_0000_0000_0000
  {}

  lemma KernelWords(h: bv64, l: bv64)
    requires SquareHigh(h, l) == 0 && SquareLow(h, l) == 0
    ensures h == 0 && l == 0
  {}

  /** The ring has no nilpotent element. */
  lemma SquareZeroIsZero(e: Elem)
    requires Square(e) == ZERO
    ensures e == ZERO
  {
    hide Square, SquareHigh, SquareLow;
    SquareIs(e);
    KernelWords(e.hi, e.lo);
  }

  /** Its only idempotents are zero and one. */
  lemma FixedIsZeroOrOne(e: Elem)
    requires Square(e) == e
    ensures e == ZERO || e == ONE
  {
    hide Square, SquareHigh, SquareLow;
    SquareIs(e);
    FixedWords(e.hi, e.lo);
  }

  // ---------- Inverses ----------

  lemma AddCancels(a: Elem, b: Elem)
    requires Add(a, b) == ZERO
    ensures a == b
  {
    hide Add;
    AddAssociates(a, b, b);
    AddSelf(b);
    AddZero(a);
    AddZero(b);
  }

  lemma SquareInjective(a: Elem, b: Elem)
    requires Square(a) == Square(b)
    ensures a == b
  {
    hide Square, Add;
    SquareAdds(a, b);
    AddSelf(Square(a));
    SquareZeroIsZero(Add(a, b));
    AddCancels(a, b);
  }

  /** h squared k times */
  function Frobenius(k: nat, h: Elem): Elem {
    if k == 0 then h else Square(Frobenius(k - 1, h))
  }

  lemma {:induction false} FrobeniusBack(i: nat, d: nat, h: Elem)
    requires Frobenius(i, h) == Frobenius(i + d, h)
    ensures h == Frobenius(d, h)
  {
    hide Square;
    if i > 0 {
      SquareInjective(Frobenius(i - 1, h), Frobenius(i - 1 + d, h));
      FrobeniusBack(i - 1, d, h);
    }
  }

  /** h to the power 2 + 4 + ... + 2^(d-1) */
  function Middle(d: nat, h: Elem): Elem {
    if d <= 1 then ONE else Times(Middle(d - 1, h), Frobenius(d - 1, h))
  }

  /** h h Middle = h^(2^d) */
  lemma {:induction false} MiddleReaches(d: nat, h: Elem)
    requires d > 0
    ensures Times(Times(h, Middle(d, h)), h) == Frobenius(d, h)
  {
    hide Times;
    if d == 1 {
      TimesOne(h);
      assert Frobenius(1, h) == Square(Frobenius(0, h));
    } else {
      MiddleReaches(d - 1, h);
      var m, f := Middle(d - 1, h), Frobenius(d - 1, h);
      TimesAssociates(h, m, f);
      TimesCommutes(Times(Times(h, m), f), h);
      TimesAssociates(h, Times(h, m), f);
      TimesCommutes(h, Times(h, m));
    }
  }

  /** If squaring d times gives h back, h times Middle is the one idempotent that is not zero. */
  lemma InverseFrom(d: nat, h: Elem)
    requires d > 0 && Frobenius(d, h) == h && h != ZERO
    ensures Times(h, Middle(d, h)) == ONE
  {
    hide Times, Middle, Frobenius;
    MiddleReaches(d, h);
    var m := Middle(d, h);
    var e := Times(h, m);
    TimesAssociates(e, h, m);
    FixedIsZeroOrOne(e);
    TimesZero(h);
  }

  // ---------- Some square repeats ----------

  function Number(e: Elem): nat { Value(Store(e)) }

  const COUNT: nat := Pow256(16)

  lemma NumberInjective(a: Elem, b: Elem)
    requires Number(a) == Number(b)
    ensures a == b
  {
    hide Value, Store, Load, BigEndian;
    BigEndianOfValue(Store(a));
    BigEndianOfValue(Store(b));
    LoadStore(a);
    LoadStore(b);
  }

  /** Among more than n numbers below n two are equal. */
  lemma {:induction false} Collision(q: seq<nat>, n: nat) returns (i: nat, j: nat)
    requires |q| > n && forall k :: 0 <= k < |q| ==> q[k] < n
    ensures i < j < |q| && q[i] == q[j]
    decreases n
  {
    if k :| 0 <= k < |q| && q[k] == n - 1 {
      if l :| 0 <= l < |q| && l != k && q[l] == n - 1 {
        i, j := if k < l then k else l, if k < l then l else k;
      } else {
        var r := q[..k] + q[k + 1..];
        i, j := Collision(r, n - 1);
        i, j := if i < k then i else i + 1, if j < k then j else j + 1;
      }
    } else {
      assert n > 0 by { assert q[0] < n; }
      i, j := Collision(q, n - 1);
    }
  }

  lemma FrobeniusRepeats(h: Elem) returns (d: nat)
    ensures d > 0 && Frobenius(d, h) == h
  {
    hide Value, Store, Square, Pow256, Number;
    var q := seq(COUNT + 1, k requires 0 <= k => Number(Frobenius(k, h)));
    forall k | 0 <= k < |q| ensures q[k] < COUNT { NumberBound(Frobenius(k, h)); }
    var i, j := Collision(q, COUNT);
    NumberInjective(Frobenius(i, h), Frobenius(j, h));
    d := j - i;
    FrobeniusBack(i, d, h);
  }

  lemma NumberBound(e: Elem)
    ensures Number(e) < COUNT
  {
    hide Value, Store;
    ValueBound(Store(e));
  }

  /** Every element but zero has an inverse. */
  lemma Invertible(h: Elem) returns (g: Elem)
    requires h != ZERO
    ensures Times(h, g) == ONE
  {
    hide Times, Frobenius, Middle;
    var d := FrobeniusRepeats(h);
    InverseFrom(d, h);
    g := Middle(d, h);
  }

  /** Multiplication by anything but zero is injective. */
  lemma TimesInjective(a: Elem, b: Elem, h: Elem)
    requires h != ZERO && Times(a, h) == Times(b, h)
    ensures a == b
  {
    hide Times;
    var g := Invertible(h);
    TimesAssociates(a, h, g);
    TimesAssociates(b, h, g);
    TimesOne(a);
    TimesOne(b);
  }
}
