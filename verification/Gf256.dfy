/**
 * The field GF(2^8) of section 4.2 of FIPS-197: multiplication modulo x^8 + x^4 + x^3 + x + 1,
 * the powers of the generator {03} that src/aes/aes.c tabulates, and the inverses they give.
 *
 * A field element wraps its byte, so that only the lemmas about single bytes see bits.
 */
module Gf256 {
  import opened Bytes

  datatype Gf = Gf(v: Byte)

  const ZERO := Gf(0)
  const ONE := Gf(1)

  function Plus(a: Gf, b: Gf): Gf { Gf(a.v ^ b.v) }

  /** xtime(): multiplication by x. */
  function Xtime(a: Gf): Gf { Gf((a.v << 1) ^ ((0 - (a.v >> 7)) & 0x1b)) }

  /** Is the constant term of a one? */
  predicate Odd(a: Gf) { a.v & 1 == 1 }

  function Pick(a: Gf, b: Gf): Gf { if Odd(a) then b else ZERO }

  function Half(a: Gf): Gf { Gf(a.v >> 1) }

  /** The product: the sum of b x^i over the bits i of a. */
  function Times(a: Gf, b: Gf): Gf {
    TimesBits(a, b, 8)
  }

  function TimesBits(a: Gf, b: Gf, n: nat): Gf
    decreases n
  {
    if n == 0 then ZERO else Plus(Pick(a, b), TimesBits(Half(a), Xtime(b), n - 1))
  }

  /** Multiplication by the generator {03}. */
  function Triple(a: Gf): Gf { Plus(a, Xtime(a)) }

  // ---------- Single bytes ----------

  lemma PlusCommutes(a: Gf, b: Gf)
    ensures Plus(a, b) == Plus(b, a)
  {}

  lemma PlusAssociates(a: Gf, b: Gf, c: Gf)
    ensures Plus(Plus(a, b), c) == Plus(a, Plus(b, c))
  {}

  lemma PlusZero(a: Gf)
    ensures Plus(a, ZERO) == a == Plus(ZERO, a)
    ensures Plus(a, a) == ZERO
  {}

  lemma PlusSwap(a: Gf, b: Gf, c: Gf, d: Gf)
    ensures Plus(Plus(a, b), Plus(c, d)) == Plus(Plus(a, c), Plus(b, d))
  {
    hide Plus;
    PlusAssociates(a, b, Plus(c, d));
    PlusAssociates(b, c, d);
    PlusCommutes(b, c);
    PlusAssociates(c, b, d);
    PlusAssociates(a, c, Plus(b, d));
  }

  lemma XtimeLinear(a: Gf, b: Gf)
    ensures Xtime(Plus(a, b)) == Plus(Xtime(a), Xtime(b))
  {}

  lemma HalfLinear(a: Gf, b: Gf)
    ensures Half(Plus(a, b)) == Plus(Half(a), Half(b))
  {}

  lemma OddLinear(a: Gf, b: Gf)
    ensures Odd(Plus(a, b)) <==> Odd(a) != Odd(b)
  {}

  lemma PickLinear(a: Gf, b: Gf, c: Gf)
    ensures Pick(Plus(a, b), c) == Plus(Pick(a, c), Pick(b, c))
  {
    hide Plus, Odd;
    OddLinear(a, b);
    PlusZero(c);
    PlusZero(ZERO);
  }

  lemma PickLinearRight(a: Gf, b: Gf, c: Gf)
    ensures Pick(a, Plus(b, c)) == Plus(Pick(a, b), Pick(a, c))
  {
    hide Plus, Odd;
    PlusZero(ZERO);
  }

  lemma XtimePick(a: Gf, b: Gf)
    ensures Xtime(Pick(a, b)) == Pick(a, Xtime(b))
  {
    hide Xtime, Odd;
    XtimeZero();
  }

  lemma XtimeZero()
    ensures Xtime(ZERO) == ZERO
  {}

  // ---------- The product is bilinear ----------

  lemma {:induction false} BitsLinearRight(a: Gf, b: Gf, c: Gf, n: nat)
    ensures TimesBits(a, Plus(b, c), n) == Plus(TimesBits(a, b, n), TimesBits(a, c, n))
    decreases n
  {
    hide Plus, Pick, Half, Xtime;
    PlusZero(ZERO);
    if n > 0 {
      BitsLinearRight(Half(a), Xtime(b), Xtime(c), n - 1);
      XtimeLinear(b, c);
      PickLinearRight(a, b, c);
      PlusSwap(Pick(a, b), Pick(a, c), TimesBits(Half(a), Xtime(b), n - 1), TimesBits(Half(a), Xtime(c), n - 1));
    }
  }

  lemma {:induction false} BitsLinearLeft(a: Gf, b: Gf, c: Gf, n: nat)
    ensures TimesBits(Plus(a, b), c, n) == Plus(TimesBits(a, c, n), TimesBits(b, c, n))
    decreases n
  {
    hide Plus, Pick, Half, Xtime;
    PlusZero(ZERO);
    if n > 0 {
      BitsLinearLeft(Half(a), Half(b), Xtime(c), n - 1);
      HalfLinear(a, b);
      PickLinear(a, b, c);
      PlusSwap(Pick(a, c), Pick(b, c), TimesBits(Half(a), Xtime(c), n - 1), TimesBits(Half(b), Xtime(c), n - 1));
    }
  }

  lemma {:induction false} BitsXtime(a: Gf, b: Gf, n: nat)
    ensures Xtime(TimesBits(a, b, n)) == TimesBits(a, Xtime(b), n)
    decreases n
  {
    hide Plus, Pick, Half, Xtime;
    XtimeZero();
    if n > 0 {
      BitsXtime(Half(a), Xtime(b), n - 1);
      XtimeLinear(Pick(a, b), TimesBits(Half(a), Xtime(b), n - 1));
      XtimePick(a, b);
    }
  }

  // ---------- Multiplying the left factor by x ----------

  function Double(a: Gf): Gf { Gf(a.v << 1) }

  function Low7(a: Gf): Gf { Gf(a.v & 0x7F) }

  predicate Top(a: Gf) { a.v & 0x80 != 0 }

  /** c when the leading coefficient of a is one, else zero. */
  function Carry(a: Gf, c: Gf): Gf { if Top(a) then c else ZERO }

  function Power(b: Gf, i: nat): Gf
    decreases i
  {
    if i == 0 then b else Power(Xtime(b), i - 1)
  }

  lemma XtimeSplits(a: Gf)
    ensures Xtime(a) == Plus(Double(a), Carry(a, Gf(0x1b)))
    ensures a == Plus(Low7(a), Carry(a, Gf(0x80)))
  {}

  lemma DoubleHalves(a: Gf)
    ensures !Odd(Double(a)) && Half(Double(a)) == Low7(a)
  {}

  /** x^8 = x^4 + x^3 + x + 1 */
  lemma Reduction(b: Gf)
    ensures Power(b, 8) == Plus(b, Plus(Power(b, 1), Plus(Power(b, 3), Power(b, 4))))
  {
    PowerUnrolls(b);
    hide Power;
    var v := b.v;
    var v2 := TimesX2(v);
    XtimeTwice(b);
    XtimeTwice(Gf(v2));
    XtimeTwice(Gf(TimesX2(v2)));
    XtimeTwice(Gf(TimesX2(TimesX2(v2))));
    ReductionByte(v);
  }

  /** The product by x^2 on the byte. */
  function TimesX2(v: Byte): Byte {
    (v << 2) ^ ((0 - ((v >> 6) & 1)) & 0x1b) ^ ((0 - (v >> 7)) & 0x36)
  }

  function TimesX(v: Byte): Byte { (v << 1) ^ ((0 - (v >> 7)) & 0x1b) }

  lemma XtimeTwice(a: Gf)
    ensures Xtime(a) == Gf(TimesX(a.v)) && Xtime(Xtime(a)) == Gf(TimesX2(a.v))
  {
    TwiceByte(a.v);
  }

  lemma TwiceByte(v: Byte)
    ensures TimesX(TimesX(v)) == TimesX2(v)
  {}

  lemma ReductionByte(v: Byte)
    ensures var v4 := TimesX2(TimesX2(v));
            TimesX2(TimesX2(v4)) == v ^ (TimesX(v) ^ (TimesX(TimesX2(v)) ^ v4))
  {}

  /** a has no coefficient from x^n on. */
  predicate Fits(a: Gf, n: nat)
    decreases n
  {
    if n == 0 then a == ZERO else Fits(Half(a), n - 1)
  }

  lemma {:induction false} BitsFit(a: Gf, b: Gf, n: nat)
    requires Fits(a, n)
    ensures TimesBits(a, b, n + 1) == TimesBits(a, b, n)
    decreases n
  {
    hide Plus, Half, Xtime;
    if n == 0 {
      assert !Odd(ZERO);
      PlusZero(ZERO);
      assert TimesBits(a, b, 1) == Plus(Pick(a, b), TimesBits(Half(a), Xtime(b), 0));
    } else {
      BitsFit(Half(a), Xtime(b), n - 1);
    }
  }

  lemma Low7Fits(a: Gf)
    ensures Fits(Low7(a), 7)
  {
    var h := Half(Half(Half(Low7(a))));
    assert Half(Half(Half(Half(h)))) == ZERO;
    assert Fits(Half(Half(Half(Half(h)))), 0) && Fits(Half(Half(h)), 2) && Fits(h, 4);
    assert Fits(Half(Low7(a)), 6);
  }

  lemma Step(a: Gf, b: Gf, n: nat)
    requires n > 0
    ensures TimesBits(a, b, n) == If(Odd(a), b, TimesBits(Half(a), Xtime(b), n - 1))
  {
    hide Plus, Half, Xtime, Odd;
    PlusZero(TimesBits(Half(a), Xtime(b), n - 1));
  }

  /** Eight steps of the product, the factor's bits given by the odd ones among its halves. */
  lemma Steps(a: Gf, b: Gf)
    ensures var h1 := Half(a); var h2 := Half(h1); var h3 := Half(h2); var h4 := Half(h3);
            var h5 := Half(h4); var h6 := Half(h5); var h7 := Half(h6);
            var b1 := Xtime(b); var b2 := Xtime(b1); var b3 := Xtime(b2); var b4 := Xtime(b3);
            var b5 := Xtime(b4); var b6 := Xtime(b5); var b7 := Xtime(b6);
            Times(a, b) == If(Odd(a), b, If(Odd(h1), b1, If(Odd(h2), b2, If(Odd(h3), b3,
                           If(Odd(h4), b4, If(Odd(h5), b5, If(Odd(h6), b6, If(Odd(h7), b7, ZERO))))))))
  {
    hide Half, Xtime, Odd, TimesBits, If;
    var h1, b1 := Half(a), Xtime(b);
    var h2, b2 := Half(h1), Xtime(b1);
    var h3, b3 := Half(h2), Xtime(b2);
    var h4, b4 := Half(h3), Xtime(b3);
    var h5, b5 := Half(h4), Xtime(b4);
    var h6, b6 := Half(h5), Xtime(b5);
    var h7, b7 := Half(h6), Xtime(b6);
    Step(a, b, 8);
    Step(h1, b1, 7);
    Step(h2, b2, 6);
    Step(h3, b3, 5);
    Step(h4, b4, 4);
    Step(h5, b5, 3);
    Step(h6, b6, 2);
    Step(h7, b7, 1);
    NoSteps(Half(h7), Xtime(b7));
  }

  lemma NoSteps(a: Gf, b: Gf)
    ensures TimesBits(a, b, 0) == ZERO
  {}

  function If(c: bool, b: Gf, rest: Gf): Gf { if c then Plus(b, rest) else rest }

  lemma TimesTop(b: Gf)
    ensures Times(Gf(0x80), b) == Power(b, 7)
  {
    Steps(Gf(0x80), b);
    PlusZero(Power(b, 7));
    PowerUnrolls(b);
  }

  lemma PowerUnrolls(b: Gf)
    ensures Power(b, 1) == Xtime(b)
    ensures Power(b, 3) == Xtime(Xtime(Xtime(b)))
    ensures Power(b, 4) == Xtime(Xtime(Xtime(Xtime(b))))
    ensures Power(b, 7) == Xtime(Xtime(Xtime(Xtime(Xtime(Xtime(Xtime(b)))))))
    ensures Power(b, 8) == Xtime(Xtime(Xtime(Xtime(Xtime(Xtime(Xtime(Xtime(b))))))))
  {
    hide Xtime;
    var b1 := Xtime(b);
    var b2 := Xtime(b1);
    var b4 := Xtime(Xtime(b2));
    var b6 := Xtime(Xtime(b4));
    assert Power(b6, 1) == Xtime(b6) && Power(b6, 2) == Xtime(Xtime(b6));
    assert Power(b4, 3) == Power(b6, 1) && Power(b4, 4) == Power(b6, 2);
    assert Power(b2, 5) == Power(b4, 3) && Power(b2, 6) == Power(b4, 4);
    assert Power(b2, 1) == Xtime(b2) && Power(b2, 2) == b4;
    assert Power(b, 7) == Power(b2, 5) && Power(b, 8) == Power(b2, 6) && Power(b, 3) == Power(b2, 1);
  }

  lemma TimesReduction(b: Gf)
    ensures Times(Gf(0x1b), b) == Power(b, 8)
  {
    hide Plus, Xtime, Times;
    Steps(Gf(0x1b), b);
    PowerUnrolls(b);
    PlusZero(Power(b, 4));
    Reduction(b);
  }

  lemma TimesZero(b: Gf)
    ensures Times(ZERO, b) == ZERO
  {
    hide Xtime, Times;
    Steps(ZERO, b);
  }

  lemma CarryTimes(a: Gf, b: Gf)
    ensures Times(Carry(a, Gf(0x1b)), b) == Times(Carry(a, Gf(0x80)), Xtime(b))
  {
    hide Xtime, Times, Top;
    TimesZero(b);
    TimesZero(Xtime(b));
    TimesReduction(b);
    TimesTop(Xtime(b));
    assert Power(b, 8) == Power(Xtime(b), 7);
  }

  lemma TimesDouble(a: Gf, b: Gf)
    ensures Times(Double(a), b) == Times(Low7(a), Xtime(b))
  {
    hide Xtime, Double, Low7, Half, Odd, Plus;
    DoubleHalves(a);
    Low7Fits(a);
    BitsFit(Low7(a), Xtime(b), 7);
    Step(Double(a), b, 8);
  }

  lemma TimesXtime(a: Gf, b: Gf)
    ensures Times(Xtime(a), b) == Xtime(Times(a, b)) == Times(a, Xtime(b))
  {
    hide Xtime, Double, Low7, Carry, Plus, TimesBits;
    XtimeSplits(a);
    BitsLinearLeft(Double(a), Carry(a, Gf(0x1b)), b, 8);
    TimesDouble(a, b);
    CarryTimes(a, b);
    BitsLinearLeft(Low7(a), Carry(a, Gf(0x80)), Xtime(b), 8);
    BitsXtime(a, b, 8);
  }

  // ---------- The powers of the generator ----------

  lemma TimesTriple(a: Gf, b: Gf)
    ensures Times(Triple(a), b) == Triple(Times(a, b))
  {
    hide Xtime, Plus, TimesBits;
    BitsLinearLeft(a, Xtime(a), b, 8);
    TimesXtime(a, b);
  }

  lemma TimesOne(b: Gf)
    ensures Times(ONE, b) == b
  {
    hide Xtime, Plus, Times;
    Steps(ONE, b);
    PlusZero(b);
  }

  /** {03}^n */
  function Pow(n: nat): Gf {
    if n == 0 then ONE else Triple(Pow(n - 1))
  }

  lemma {:induction false} PowAdds(m: nat, n: nat)
    ensures Times(Pow(m), Pow(n)) == Pow(m + n)
  {
    hide Times, Triple;
    if m == 0 {
      TimesOne(Pow(n));
    } else {
      PowAdds(m - 1, n);
      TimesTriple(Pow(m - 1), Pow(n));
    }
  }

  lemma TripleNonZero(a: Gf)
    ensures Triple(a) == ZERO <==> a == ZERO
  {}

  lemma {:induction false} PowNonZero(n: nat)
    ensures Pow(n) != ZERO
  {
    hide Triple;
    if n > 0 {
      PowNonZero(n - 1);
      TripleNonZero(Pow(n - 1));
    }
  }

  lemma LowProducts()
    ensures Times(Gf(3), Gf(3)) == Gf(5)
    ensures Times(Gf(5), Gf(3)) == Gf(0x0F)
    ensures Times(Gf(0x0F), Gf(5)) == Gf(0x33)
    ensures Times(Gf(0x33), Gf(0x33)) == Gf(0x72)
    ensures Times(Gf(0x72), Gf(0x33)) == Gf(0x35)
  {
    hide Times;
    Steps(Gf(3), Gf(3));
    Steps(Gf(5), Gf(3));
    Steps(Gf(0x0F), Gf(5));
    Steps(Gf(0x33), Gf(0x33));
    Steps(Gf(0x72), Gf(0x33));
  }

  lemma HighProducts()
    ensures Times(Gf(0x35), Gf(5)) == Gf(0xE1)
    ensures Times(Gf(0xE1), Gf(0xE1)) == Gf(0x5C)
    ensures Times(Gf(0x5C), Gf(0xE1)) == Gf(0x0C)
    ensures Times(Gf(0x0C), Gf(0x5C)) == Gf(0xBD)
    ensures Times(Gf(0xBD), Gf(0xBD)) == Gf(0xBC)
    ensures Times(Gf(0xBC), Gf(0xBD)) == Gf(1)
  {
    hide Times;
    Steps(Gf(0x35), Gf(5));
    Steps(Gf(0xE1), Gf(0xE1));
    Steps(Gf(0x5C), Gf(0xE1));
    Steps(Gf(0x0C), Gf(0x5C));
    Steps(Gf(0xBD), Gf(0xBD));
    Steps(Gf(0xBC), Gf(0xBD));
  }

  /** The powers 15, 51, 85 and 255, by repeated squaring. */
  lemma SomePowers()
    ensures Pow(15) == Gf(0x35) && Pow(51) == Gf(0x0C) && Pow(85) == Gf(0xBD) && Pow(255) == ONE
  {
    LowProducts();
    HighProducts();
    FirstPower();
    hide Times, Pow;
    PowAdds(1, 1);
    PowAdds(2, 1);
    PowAdds(3, 2);
    PowAdds(5, 5);
    PowAdds(10, 5);
    PowAdds(15, 2);
    PowAdds(17, 17);
    PowAdds(34, 17);
    PowAdds(51, 34);
    PowAdds(85, 85);
    PowAdds(170, 85);
  }

  lemma FirstPower()
    ensures Pow(1) == Gf(3)
  {
    assert Pow(0) == ONE;
  }

  lemma {:induction false} PowMultiple(d: nat, k: nat)
    requires Pow(d) == ONE
    ensures Pow(d * k) == ONE
  {
    hide Times, Pow;
    if k == 0 {
      assert d * k == 0;
      PowStart();
    } else {
      PowMultiple(d, k - 1);
      PowAdds(d, d * (k - 1));
      TimesOne(ONE);
      assert d + d * (k - 1) == d * k;
    }
  }

  lemma PowStart()
    ensures Pow(0) == ONE
  {}

  /** A power that gives one may be taken out of the exponent. */
  lemma PowMod(n: nat, d: nat)
    requires d > 0 && Pow(d) == ONE
    ensures Pow(n) == Pow(n % d)
  {
    hide Times, Pow;
    PowMultiple(d, n / d);
    PowAdds(d * (n / d), n % d);
    TimesOne(Pow(n % d));
  }

  predicate SmallNumber(n: nat) {
    n == 1 || n == 2 || n == 3 || n == 4 || n == 5 || n == 6 || n == 7 || n == 8 ||
    n == 9 || n == 10 || n == 11 || n == 12 || n == 13 || n == 14 || n == 15
  }

  /** Every proper divisor of 255 divides 85, 51 or 15. */
  lemma ProperDivisor(d: nat)
    requires 0 < d < 255 && 255 % d == 0
    ensures 85 % d == 0 || 51 % d == 0 || 15 % d == 0
  {
    var q := 255 / d;
    assert d * q == 255;
    if d <= 15 {
      assert SmallNumber(d);
    } else {
      assert 16 * q <= d * q;
      assert SmallNumber(q);
    }
  }

  /** The order of {03} is 255. */
  lemma {:induction false} Order(d: nat)
    requires 0 < d < 255
    ensures Pow(d) != ONE
  {
    hide Pow;
    if Pow(d) == ONE {
      SomePowers();
      PowMod(255, d);
      if 255 % d != 0 {
        Order(255 % d);
      } else {
        ProperDivisor(d);
        PowMod(85, d);
        PowMod(51, d);
        PowMod(15, d);
        PowStart();
      }
    }
  }

  lemma PowInjective(m: nat, n: nat)
    requires m < n < 255
    ensures Pow(m) != Pow(n)
  {
    hide Pow, Times;
    SomePowers();
    PowAdds(m, 255 - m);
    PowAdds(n, 255 - m);
    PowMod(n + (255 - m), 255);
    assert (n + (255 - m)) % 255 == n - m;
    Order(n - m);
  }

  // ---------- Every non-zero element is a power ----------

  ghost function FirstPowers(n: nat): set<Gf> {
    if n == 0 then {} else FirstPowers(n - 1) + {Pow(n - 1)}
  }

  lemma {:induction false} Exponent(n: nat, a: Gf) returns (k: nat)
    requires a in FirstPowers(n)
    ensures k < n && Pow(k) == a
  {
    hide Pow;
    if a == Pow(n - 1) {
      k := n - 1;
    } else {
      k := Exponent(n - 1, a);
    }
  }

  lemma {:induction false} FirstPowersSize(n: nat)
    requires n <= 255
    ensures |FirstPowers(n)| == n
  {
    hide Pow;
    if n > 0 {
      FirstPowersSize(n - 1);
      if Pow(n - 1) in FirstPowers(n - 1) {
        var k := Exponent(n - 1, Pow(n - 1));
        PowInjective(k, n - 1);
      }
    }
  }

  ghost function FirstBytes(n: nat): set<Gf>
    requires n <= 256
  {
    if n == 0 then {} else FirstBytes(n - 1) + {Gf(ByteOf(n - 1))}
  }

  lemma {:induction false} FirstBytesSize(n: nat)
    requires n <= 256
    ensures |FirstBytes(n)| <= n
  {
    if n > 0 {
      FirstBytesSize(n - 1);
    }
  }

  lemma {:induction false} FirstBytesMember(n: nat, a: Gf)
    requires n <= 256 && a.v as nat < n
    ensures a in FirstBytes(n)
  {
    if a.v as nat == n - 1 {
      SameByte(ByteOf(n - 1), a.v);
    } else {
      FirstBytesMember(n - 1, a);
    }
  }

  /** {03} generates all 255 non-zero elements. */
  lemma Generates(a: Gf) returns (k: nat)
    requires a != ZERO
    ensures k < 255 && Pow(k) == a
  {
    hide Pow, FirstPowers, FirstBytes;
    if a !in FirstPowers(255) {
      var all := FirstPowers(255) + {a, ZERO};
      forall b | b in all ensures b in FirstBytes(256) {
        NatOfByte(b.v);
        FirstBytesMember(256, b);
      }
      if ZERO in FirstPowers(255) {
        var j := Exponent(255, ZERO);
        PowNonZero(j);
      }
      FirstPowersSize(255);
      assert |all| == 257;
      FirstBytesSize(256);
      SubsetSize(all, FirstBytes(256));
    }
    k := Exponent(255, a);
  }

  lemma {:induction false} SubsetSize(a: set<Gf>, b: set<Gf>)
    requires a <= b
    ensures |a| <= |b|
  {
    if a != {} {
      var x :| x in a;
      SubsetSize(a - {x}, b - {x});
    }
  }

  // ---------- Inverses and products from the powers ----------

  lemma TimesCommutes(a: Gf, b: Gf)
    ensures Times(a, b) == Times(b, a)
  {
    hide Pow, Times;
    TimesZero(a);
    TimesZero(b);
    TimesByZero(a);
    TimesByZero(b);
    if a != ZERO && b != ZERO {
      var m := Generates(a);
      var n := Generates(b);
      PowAdds(m, n);
      PowAdds(n, m);
    }
  }

  lemma {:induction false} BitsByZero(a: Gf, n: nat)
    ensures TimesBits(a, ZERO, n) == ZERO
    decreases n
  {
    hide Plus, Xtime, Half;
    XtimeZero();
    PlusZero(ZERO);
    if n > 0 {
      BitsByZero(Half(a), n - 1);
    }
  }

  lemma TimesByZero(a: Gf)
    ensures Times(a, ZERO) == ZERO
  {
    BitsByZero(a, 8);
  }

  lemma TimesAssociates(a: Gf, b: Gf, c: Gf)
    ensures Times(Times(a, b), c) == Times(a, Times(b, c))
  {
    hide Pow, Times;
    if a == ZERO || b == ZERO || c == ZERO {
      TimesZero(b); TimesZero(c); TimesZero(Times(b, c));
      TimesByZero(a); TimesByZero(b); TimesByZero(Times(a, b));
    } else {
      var k := Generates(a);
      var m := Generates(b);
      var n := Generates(c);
      PowAdds(k, m);
      PowAdds(k + m, n);
      PowAdds(m, n);
      PowAdds(k, m + n);
    }
  }

  /** The multiplicative inverse of section 4.2 of FIPS-197, zero mapped to itself. */
  ghost predicate IsInverse(a: Gf, r: Gf) {
    if a == ZERO then r == ZERO else Times(a, r) == ONE
  }

  lemma InverseUnique(a: Gf, r: Gf, s: Gf)
    requires IsInverse(a, r) && IsInverse(a, s)
    ensures r == s
  {
    hide Times;
    if a != ZERO {
      TimesAssociates(r, a, s);
      TimesCommutes(r, a);
      TimesCommutes(r, ONE);
      TimesOne(r);
      TimesOne(s);
    }
  }

  lemma InverseSymmetric(a: Gf, r: Gf)
    requires IsInverse(a, r)
    ensures IsInverse(r, a)
  {
    hide Times;
    TimesByZero(a);
    TimesCommutes(a, r);
  }

  /** Negating the exponent inverts. */
  lemma PowInverse(n: nat)
    requires n <= 255
    ensures IsInverse(Pow(n), Pow(255 - n))
  {
    hide Pow, Times;
    PowNonZero(n);
    PowAdds(n, 255 - n);
    SomePowers();
  }

  /** Adding exponents modulo 255 multiplies. */
  lemma PowProduct(m: nat, n: nat)
    ensures Pow((m + n) % 255) == Times(Pow(m), Pow(n))
  {
    hide Pow, Times;
    SomePowers();
    PowMod(m + n, 255);
    PowAdds(m, n);
  }
}
