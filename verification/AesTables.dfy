/**
 * The 32-bit words of src/aes/aes.c, each holding a column of the state with its first byte in the
 * low-order bits.
 */
module AesWords {
  import opened Bytes
  import opened Gf256
  import opened AesSpec

  /** A uint32_t. */
  datatype Word = Word(w: bv32)

  function XorW(x: Word, y: Word): Word { Word(x.w ^ y.w) }

  /** GET_UINT32_LE */
  function Pack(x: Col): Word {
    Word((x.a.v as bv32) | (x.b.v as bv32 << 8) | (x.c.v as bv32 << 16) | (x.d.v as bv32 << 24))
  }

  function Byte0(x: Word): Gf { Gf((x.w & 0xFF) as Byte) }

  function Byte1(x: Word): Gf { Gf(((x.w >> 8) & 0xFF) as Byte) }

  function Byte2(x: Word): Gf { Gf(((x.w >> 16) & 0xFF) as Byte) }

  function Byte3(x: Word): Gf { Gf(((x.w >> 24) & 0xFF) as Byte) }

  /** PUT_UINT32_LE */
  function Unpack(x: Word): Col { Col(Byte0(x), Byte1(x), Byte2(x), Byte3(x)) }

  /** ROTL8 */
  function Rotl8(x: Word): Word { Word(((x.w << 8) & 0xFFFF_FFFF) | (x.w >> 24)) }

  /** a ^ (b << 8) ^ (c << 16) ^ (d << 24) */
  function Join(a: Gf, b: Gf, c: Gf, d: Gf): Word {
    Word((a.v as bv32) ^ (b.v as bv32 << 8) ^ (c.v as bv32 << 16) ^ (d.v as bv32 << 24))
  }

  lemma UnpackPack(x: Col)
    ensures Unpack(Pack(x)) == x
  {}

  lemma JoinIsPack(a: Gf, b: Gf, c: Gf, d: Gf)
    ensures Join(a, b, c, d) == Pack(Col(a, b, c, d))
  {}

  lemma PackXor(x: Col, y: Col)
    ensures XorW(Pack(x), Pack(y)) == Pack(AddCol(x, y))
  {}

  lemma RotlPack(x: Col)
    ensures Rotl8(Pack(x)) == Pack(Col(x.d, x.a, x.b, x.c))
  {}
}

/** aes_gen_tables of src/aes/aes.c: the tables built at run time, and what each entry is. */
module AesTables {
  import opened Bytes
  import opened Gf256
  import opened AesSpec
  import opened AesWords

  // ---------- Bytes as table indices ----------

  function Index(a: Gf): (i: nat)
    ensures i < 256
  {
    NatOfByte(a.v);
    a.v as nat
  }

  function At(i: nat): (a: Gf)
    requires i < 256
    ensures Index(a) == i
  {
    Gf(ByteOf(i))
  }

  lemma SameIndex(a: Gf, b: Gf)
    requires Index(a) == Index(b)
    ensures a == b
  {
    SameByte(a.v, b.v);
  }

  /** Every entry below n is the value of f. */
  ghost predicate Filled<T>(t: seq<T>, f: Gf -> T, n: nat) {
    |t| == 256 && forall a: Gf :: Index(a) < n ==> t[Index(a)] == f(a)
  }

  lemma FilledStep<T>(t: seq<T>, f: Gf -> T, a: Gf, v: T)
    requires Filled(t, f, Index(a)) && v == f(a)
    ensures Filled(t[Index(a) := v], f, Index(a) + 1)
  {
    hide Index;
    forall b: Gf | Index(b) < Index(a) + 1 ensures t[Index(a) := v][Index(b)] == f(b) {
      if Index(b) == Index(a) {
        SameIndex(a, b);
      }
    }
  }

  lemma FilledAt<T>(t: seq<T>, f: Gf -> T, a: Gf)
    requires Filled(t, f, 256)
    ensures |t| == 256 && t[Index(a)] == f(a)
  {}

  lemma FilledSize<T>(t: seq<T>, f: Gf -> T, n: nat)
    requires Filled(t, f, n)
    ensures |t| == 256
  {}

  // ---------- What the table entries are ----------

  // A column whose only entry is a, in row 0 to 3.
  function Row0(a: Gf): Col { Col(a, ZERO, ZERO, ZERO) }
  function Row1(a: Gf): Col { Col(ZERO, a, ZERO, ZERO) }
  function Row2(a: Gf): Col { Col(ZERO, ZERO, a, ZERO) }
  function Row3(a: Gf): Col { Col(ZERO, ZERO, ZERO, a) }

  // What a byte in each row contributes to a round: the entries of FT0 to FT3 ...
  ghost function Forward0(a: Gf): Word { Pack(MixColumn(Row0(SubByte(a)))) }
  ghost function Forward1(a: Gf): Word { Pack(MixColumn(Row1(SubByte(a)))) }
  ghost function Forward2(a: Gf): Word { Pack(MixColumn(Row2(SubByte(a)))) }
  ghost function Forward3(a: Gf): Word { Pack(MixColumn(Row3(SubByte(a)))) }

  // ... and of RT0 to RT3.
  ghost function Reverse0(a: Gf): Word { Pack(InvMixColumn(Row0(InvSubByte(a)))) }
  ghost function Reverse1(a: Gf): Word { Pack(InvMixColumn(Row1(InvSubByte(a)))) }
  ghost function Reverse2(a: Gf): Word { Pack(InvMixColumn(Row2(InvSubByte(a)))) }
  ghost function Reverse3(a: Gf): Word { Pack(InvMixColumn(Row3(InvSubByte(a)))) }

  lemma TimesTwo(a: Gf)
    ensures Times(Gf(2), a) == Xtime(a)
    ensures Times(Gf(3), a) == Plus(Xtime(a), a)
  {
    hide Times, Xtime, Plus;
    Steps(Gf(2), a);
    Steps(Gf(3), a);
    PlusZero(Xtime(a));
    PlusCommutes(a, Xtime(a));
  }

  lemma DotRow(k: Byte, l: Byte, m: Byte, n: Byte, a: Gf)
    ensures Dot(k, l, m, n, Row0(a)) == Times(Gf(k), a)
    ensures Dot(k, l, m, n, Row1(a)) == Times(Gf(l), a)
    ensures Dot(k, l, m, n, Row2(a)) == Times(Gf(m), a)
    ensures Dot(k, l, m, n, Row3(a)) == Times(Gf(n), a)
  {
    hide Times, Sum4;
    TimesByZero(Gf(k));
    TimesByZero(Gf(l));
    TimesByZero(Gf(m));
    TimesByZero(Gf(n));
    Alone(Times(Gf(k), a));
    Alone(Times(Gf(l), a));
    Alone(Times(Gf(m), a));
    Alone(Times(Gf(n), a));
  }

  lemma MixRows(a: Gf)
    ensures MixColumn(Row0(a)) == Col(Xtime(a), a, a, Plus(Xtime(a), a))
    ensures MixColumn(Row1(a)) == Col(Plus(Xtime(a), a), Xtime(a), a, a)
    ensures MixColumn(Row2(a)) == Col(a, Plus(Xtime(a), a), Xtime(a), a)
    ensures MixColumn(Row3(a)) == Col(a, a, Plus(Xtime(a), a), Xtime(a))
  {
    hide Dot, Times, Xtime, Plus, Row0, Row1, Row2, Row3;
    DotRow(2, 3, 1, 1, a);
    DotRow(1, 2, 3, 1, a);
    DotRow(1, 1, 2, 3, a);
    DotRow(3, 1, 1, 2, a);
    TimesTwo(a);
    TimesOne(a);
  }

  lemma InvMixRows(a: Gf)
    ensures var e, b, d, n := Times(Gf(0x0e), a), Times(Gf(0x0b), a), Times(Gf(0x0d), a), Times(Gf(0x09), a);
            && InvMixColumn(Row0(a)) == Col(e, n, d, b)
            && InvMixColumn(Row1(a)) == Col(b, e, n, d)
            && InvMixColumn(Row2(a)) == Col(d, b, e, n)
            && InvMixColumn(Row3(a)) == Col(n, d, b, e)
  {
    hide Dot, Times, Row0, Row1, Row2, Row3;
    DotRow(0x0e, 0x0b, 0x0d, 0x09, a);
    DotRow(0x09, 0x0e, 0x0b, 0x0d, a);
    DotRow(0x0d, 0x09, 0x0e, 0x0b, a);
    DotRow(0x0b, 0x0d, 0x09, 0x0e, a);
  }

  /** The four forward words for one S-box value, each a rotation of the one before. */
  lemma ForwardWords(a: Gf)
    ensures var x := SubByte(a);
            var w := Join(Xtime(x), x, x, Plus(Xtime(x), x));
            && w == Forward0(a) && Rotl8(w) == Forward1(a)
            && Rotl8(Rotl8(w)) == Forward2(a) && Rotl8(Rotl8(Rotl8(w))) == Forward3(a)
  {
    hide Join, Rotl8, Pack, Xtime, Plus, MixColumn, SubByte, Row0, Row1, Row2, Row3;
    var x := SubByte(a);
    var y, z := Xtime(x), Plus(Xtime(x), x);
    MixRows(x);
    JoinIsPack(y, x, x, z);
    RotlPack(Col(y, x, x, z));
    RotlPack(Col(z, y, x, x));
    RotlPack(Col(x, z, y, x));
  }

  lemma ReverseWords(a: Gf)
    ensures var x := InvSubByte(a);
            var w := Join(Times(Gf(0x0e), x), Times(Gf(0x09), x), Times(Gf(0x0d), x), Times(Gf(0x0b), x));
            && w == Reverse0(a) && Rotl8(w) == Reverse1(a)
            && Rotl8(Rotl8(w)) == Reverse2(a) && Rotl8(Rotl8(Rotl8(w))) == Reverse3(a)
  {
    hide Join, Rotl8, Pack, Times, InvMixColumn, InvSubByte, Row0, Row1, Row2, Row3;
    var x := InvSubByte(a);
    var e, b, d, n := Times(Gf(0x0e), x), Times(Gf(0x0b), x), Times(Gf(0x0d), x), Times(Gf(0x09), x);
    InvMixRows(x);
    JoinIsPack(e, n, d, b);
    RotlPack(Col(e, n, d, b));
    RotlPack(Col(b, e, n, d));
    RotlPack(Col(d, b, e, n));
  }

  // ---------- Logarithms ----------

  /** pow holds the powers of {03}; log holds an exponent for every non-zero element. */
  ghost predicate Logarithms(pow: seq<Gf>, log: seq<nat>) {
    && |pow| == |log| == 256
    && (forall k :: 0 <= k < 256 ==> pow[k] == Pow(k))
    && (forall a: Gf :: a != ZERO ==> log[Index(a)] < 256 && Pow(log[Index(a)]) == a)
  }

  /** The exponents entered so far, the last one for an element prevailing. */
  ghost predicate LogUpTo(log: seq<nat>, n: nat) {
    |log| == 256 && forall k :: 0 <= k < n ==> log[Index(Pow(k))] < n && Pow(log[Index(Pow(k))]) == Pow(k)
  }

  lemma LogStep(log: seq<nat>, n: nat)
    requires LogUpTo(log, n)
    ensures LogUpTo(log[Index(Pow(n)) := n], n + 1)
  {
    hide Pow, Index;
    var l := log[Index(Pow(n)) := n];
    forall k | 0 <= k < n + 1 ensures l[Index(Pow(k))] < n + 1 && Pow(l[Index(Pow(k))]) == Pow(k) {
      if Index(Pow(k)) == Index(Pow(n)) {
        SameIndex(Pow(k), Pow(n));
      }
    }
  }

  lemma LogComplete(log: seq<nat>, a: Gf)
    requires LogUpTo(log, 256) && a != ZERO
    ensures log[Index(a)] < 256 && Pow(log[Index(a)]) == a
  {
    hide Pow, Index;
    var k := Generates(a);
  }

  method GenLogarithms() returns (pow: array<Gf>, log: array<nat>)
    ensures fresh(pow) && fresh(log)
    ensures Logarithms(pow[..], log[..])
  {
    hide Pow, Triple, Index, LogUpTo;
    PowStart();
    pow, log := new Gf[256](_ => ZERO), new nat[256](_ => 0);
    var i, x := 0, ONE;
    NoLogs(log[..]);
    while i < 256
      invariant i <= 256 && x == Pow(i)
      invariant forall k :: 0 <= k < i ==> pow[k] == Pow(k)
      invariant LogUpTo(log[..], i)
    {
      pow[i] := x;
      LogStep(log[..], i);
      Store(log, Index(x), i);
      PowNext(i);
      x := Triple(x);
      i := i + 1;
    }
    forall a: Gf | a != ZERO ensures log[Index(a)] < 256 && Pow(log[Index(a)]) == a {
      LogComplete(log[..], a);
    }
  }

  lemma NoLogs(log: seq<nat>)
    requires |log| == 256
    ensures LogUpTo(log, 0)
  {}

  method Store<T>(t: array<T>, i: nat, v: T)
    requires i < t.Length
    modifies t
    ensures t[..] == old(t[..])[i := v]
  {
    t[i] := v;
  }

  lemma PowNext(i: nat)
    ensures Pow(i + 1) == Triple(Pow(i))
  {}

  /** MUL(x, y) */
  method Mul(pow: array<Gf>, log: array<nat>, x: Gf, y: Gf) returns (r: Gf)
    requires Logarithms(pow[..], log[..])
    ensures r == Times(x, y)
  {
    hide Times, Pow;
    TimesZero(y);
    TimesByZero(x);
    if x != ZERO && y != ZERO {
      PowProduct(log[..][Index(x)], log[..][Index(y)]);
      r := pow[(log[Index(x)] + log[Index(y)]) % 255];
    } else {
      r := ZERO;
    }
  }

  // ---------- The S-boxes ----------

  /** ( ( y << 1 ) | ( y >> 7 ) ) & 0xFF */
  function Rotl(a: Gf): Gf { Gf((a.v << 1) | (a.v >> 7)) }

  function Rotl2(a: Gf): Gf { Gf((a.v << 2) | (a.v >> 6)) }
  function Rotl3(a: Gf): Gf { Gf((a.v << 3) | (a.v >> 5)) }
  function Rotl4(a: Gf): Gf { Gf((a.v << 4) | (a.v >> 4)) }

  lemma Rotations(x: Gf)
    ensures Rotl(Rotl(x)) == Rotl2(x)
    ensures Rotl(Rotl2(x)) == Rotl3(x)
    ensures Rotl(Rotl3(x)) == Rotl4(x)
  {}

  lemma Xor6(a: Gf, b: Gf, c: Gf, d: Gf, e: Gf, f: Gf)
    ensures Plus(Plus(Plus(Plus(a, b), c), d), Plus(e, f)) == Gf(a.v ^ b.v ^ c.v ^ d.v ^ e.v ^ f.v)
  {
    PlusAssociates(Plus(Plus(Plus(a, b), c), d), e, f);
  }

  lemma AffineRotates(x: Gf)
    ensures Affine(x) == Gf(x.v ^ Rotl(x).v ^ Rotl2(x).v ^ Rotl3(x).v ^ Rotl4(x).v ^ 0x63)
  {}

  lemma RotationsAreAffine(x: Gf)
    ensures var y1 := Rotl(x); var y2 := Rotl(y1); var y3 := Rotl(y2); var y4 := Rotl(y3);
            Plus(Plus(Plus(Plus(x, y1), y2), y3), Plus(y4, Gf(0x63))) == Affine(x)
  {
    hide Plus, Rotl, Rotl2, Rotl3, Rotl4, Affine;
    Rotations(x);
    AffineRotates(x);
    Xor6(x, Rotl(x), Rotl2(x), Rotl3(x), Rotl4(x), Gf(0x63));
  }

  /** The byte substituted for the element whose logarithm is n. */
  method Substitute(pow: array<Gf>, ghost log: seq<nat>, n: nat, ghost a: Gf) returns (x: Gf)
    requires Logarithms(pow[..], log) && n <= 255 && Pow(n) == a
    ensures x == SubByte(a)
  {
    hide Pow, Times, Affine, Rotl, Plus;
    x := pow[255 - n];
    assert x == Inverse(a) by {
      PowInverse(n);
      InverseUnique(a, x, Inverse(a));
    }
    RotationsAreAffine(x);
    var y := x;
    y := Rotl(y);
    x := Plus(x, y);
    y := Rotl(y);
    x := Plus(x, y);
    y := Rotl(y);
    x := Plus(x, y);
    y := Rotl(y);
    x := Plus(x, Plus(y, Gf(0x63)));
  }

  lemma SubByteOfZero()
    ensures SubByte(ZERO) == Gf(0x63)
  {}

  /** The entries of the reverse S-box made so far. */
  ghost predicate Reversed(rsb: seq<Gf>, n: nat) {
    |rsb| == 256 && forall a: Gf :: Index(a) < n ==> rsb[Index(SubByte(a))] == a
  }

  lemma ReversedStep(rsb: seq<Gf>, a: Gf)
    requires Reversed(rsb, Index(a))
    ensures Reversed(rsb[Index(SubByte(a)) := a], Index(a) + 1)
  {
    hide Index, SubByte, InvSubByte;
    var t := rsb[Index(SubByte(a)) := a];
    forall b: Gf | Index(b) < Index(a) + 1 ensures t[Index(SubByte(b))] == b {
      if Index(SubByte(b)) == Index(SubByte(a)) {
        SameIndex(SubByte(a), SubByte(b));
        SubByteInverse(a);
        SubByteInverse(b);
      } else if Index(b) == Index(a) {
        SameIndex(a, b);
      }
    }
  }

  lemma ReversedComplete(rsb: seq<Gf>)
    requires Reversed(rsb, 256)
    ensures Filled(rsb, InvSubByte, 256)
  {
    hide Index, SubByte, InvSubByte;
    forall a: Gf ensures rsb[Index(a)] == InvSubByte(a) {
      SubByteInverse(a);
      assert rsb[Index(SubByte(InvSubByte(a)))] == InvSubByte(a);
    }
  }

  method GenSboxes(pow: array<Gf>, log: array<nat>) returns (fsb: array<Gf>, rsb: array<Gf>)
    requires Logarithms(pow[..], log[..])
    ensures fresh(fsb) && fresh(rsb)
    ensures Filled(fsb[..], SubByte, 256)
    ensures Filled(rsb[..], InvSubByte, 256)
  {
    hide Index, SubByte, InvSubByte, Pow, Filled, Reversed, At;
    fsb, rsb := new Gf[256](_ => ZERO), new Gf[256](_ => ZERO);
    IndexOfZero();
    SubByteOfZero();
    NothingFilled(fsb[..], SubByte);
    NothingReversed(rsb[..]);
    FilledStep(fsb[..], SubByte, ZERO, Gf(0x63));
    ReversedStep(rsb[..], ZERO);
    Store(fsb, Index(ZERO), Gf(0x63));
    Store(rsb, Index(Gf(0x63)), ZERO);
    var i := 1;
    while i < 256
      invariant 1 <= i <= 256
      invariant Filled(fsb[..], SubByte, i)
      invariant Reversed(rsb[..], i)
    {
      ghost var a := At(i);
      assert log[..][Index(a)] < 256 && Pow(log[..][Index(a)]) == a;
      var x := Substitute(pow, log[..], log[i], a);
      FilledStep(fsb[..], SubByte, a, x);
      ReversedStep(rsb[..], a);
      Store(fsb, i, x);
      Store(rsb, Index(x), At(i));
      i := i + 1;
    }
    ReversedComplete(rsb[..]);
  }

  lemma IndexOfZero()
    ensures Index(ZERO) == 0
  {}

  lemma NothingFilled<T>(t: seq<T>, f: Gf -> T)
    requires |t| == 256
    ensures Filled(t, f, 0)
  {}

  lemma NothingReversed(t: seq<Gf>)
    requires |t| == 256
    ensures Reversed(t, 0)
  {}

  // ---------- The round tables ----------

  method GenForward(fsb: array<Gf>) returns (ft0: array<Word>, ft1: array<Word>, ft2: array<Word>, ft3: array<Word>)
    requires Filled(fsb[..], SubByte, 256)
    ensures fresh(ft0) && fresh(ft1) && fresh(ft2) && fresh(ft3)
    ensures Filled(ft0[..], Forward0, 256) && Filled(ft1[..], Forward1, 256)
    ensures Filled(ft2[..], Forward2, 256) && Filled(ft3[..], Forward3, 256)
  {
    hide Filled, Index, SubByte, At, Xtime, Plus, Join, Rotl8, Forward0, Forward1, Forward2, Forward3;
    ft0, ft1 := new Word[256](_ => Word(0)), new Word[256](_ => Word(0));
    ft2, ft3 := new Word[256](_ => Word(0)), new Word[256](_ => Word(0));
    NothingFilled(ft0[..], Forward0);
    NothingFilled(ft1[..], Forward1);
    NothingFilled(ft2[..], Forward2);
    NothingFilled(ft3[..], Forward3);
    var i := 0;
    while i < 256
      invariant i <= 256
      invariant Filled(ft0[..], Forward0, i) && Filled(ft1[..], Forward1, i)
      invariant Filled(ft2[..], Forward2, i) && Filled(ft3[..], Forward3, i)
    {
      ghost var a := At(i);
      FilledAt(fsb[..], SubByte, a);
      var x := fsb[i];
      var y := Xtime(x);
      var z := Plus(y, x);
      ForwardWords(a);
      EnterFour(ft0, ft1, ft2, ft3, Forward0, Forward1, Forward2, Forward3, i, a, Join(y, x, x, z));
      i := i + 1;
    }
  }

  method GenReverse(rsb: array<Gf>, pow: array<Gf>, log: array<nat>)
    returns (rt0: array<Word>, rt1: array<Word>, rt2: array<Word>, rt3: array<Word>)
    requires Filled(rsb[..], InvSubByte, 256) && Logarithms(pow[..], log[..])
    ensures fresh(rt0) && fresh(rt1) && fresh(rt2) && fresh(rt3)
    ensures Filled(rt0[..], Reverse0, 256) && Filled(rt1[..], Reverse1, 256)
    ensures Filled(rt2[..], Reverse2, 256) && Filled(rt3[..], Reverse3, 256)
  {
    hide Filled, Index, InvSubByte, At, Times, Join, Rotl8, Reverse0, Reverse1, Reverse2, Reverse3, Logarithms;
    rt0, rt1 := new Word[256](_ => Word(0)), new Word[256](_ => Word(0));
    rt2, rt3 := new Word[256](_ => Word(0)), new Word[256](_ => Word(0));
    NothingFilled(rt0[..], Reverse0);
    NothingFilled(rt1[..], Reverse1);
    NothingFilled(rt2[..], Reverse2);
    NothingFilled(rt3[..], Reverse3);
    var i := 0;
    while i < 256
      invariant i <= 256
      invariant Filled(rt0[..], Reverse0, i) && Filled(rt1[..], Reverse1, i)
      invariant Filled(rt2[..], Reverse2, i) && Filled(rt3[..], Reverse3, i)
    {
      ghost var a := At(i);
      FilledAt(rsb[..], InvSubByte, a);
      var x := rsb[i];
      var e := Mul(pow, log, Gf(0x0e), x);
      var n := Mul(pow, log, Gf(0x09), x);
      var d := Mul(pow, log, Gf(0x0d), x);
      var b := Mul(pow, log, Gf(0x0b), x);
      ReverseWords(a);
      EnterFour(rt0, rt1, rt2, rt3, Reverse0, Reverse1, Reverse2, Reverse3, i, a, Join(e, n, d, b));
      i := i + 1;
    }
  }

  /** The next entry of four tables, each word the rotation of the one before. */
  method EnterFour(t0: array<Word>, t1: array<Word>, t2: array<Word>, t3: array<Word>,
                   ghost f0: Gf -> Word, ghost f1: Gf -> Word, ghost f2: Gf -> Word, ghost f3: Gf -> Word,
                   i: nat, ghost a: Gf, w: Word)
    requires t0 != t1 && t0 != t2 && t0 != t3 && t1 != t2 && t1 != t3 && t2 != t3
    requires i == Index(a)
    requires Filled(t0[..], f0, i) && Filled(t1[..], f1, i) && Filled(t2[..], f2, i) && Filled(t3[..], f3, i)
    requires w == f0(a) && Rotl8(w) == f1(a) && Rotl8(Rotl8(w)) == f2(a) && Rotl8(Rotl8(Rotl8(w))) == f3(a)
    modifies t0, t1, t2, t3
    ensures Filled(t0[..], f0, i + 1) && Filled(t1[..], f1, i + 1)
    ensures Filled(t2[..], f2, i + 1) && Filled(t3[..], f3, i + 1)
  {
    hide Filled, Index, Rotl8;
    Enter(t0, f0, i, a, w);
    Enter(t1, f1, i, a, Rotl8(t0[i]));
    Enter(t2, f2, i, a, Rotl8(t1[i]));
    Enter(t3, f3, i, a, Rotl8(t2[i]));
  }

  /** The next entry of a table. */
  method Enter(t: array<Word>, ghost f: Gf -> Word, i: nat, ghost a: Gf, v: Word)
    requires i == Index(a) && Filled(t[..], f, i) && v == f(a)
    modifies t
    ensures Filled(t[..], f, i + 1)
    ensures t.Length == 256 && t[i] == v
  {
    FilledSize(t[..], f, i);
    FilledStep(t[..], f, a, v);
    Store(t, i, v);
  }

  /** RCON[j], the round constant in the low-order byte. */
  function RconWord(j: nat): Word { Pack(Row0(Rcon(j))) }

  method GenRcon() returns (rcon: array<Word>)
    ensures fresh(rcon) && rcon.Length == 10
    ensures forall j :: 0 <= j < 10 ==> rcon[j] == RconWord(j)
  {
    hide Pack, Xtime;
    rcon := new Word[10](_ => Word(0));
    var i, x := 0, ONE;
    while i < 10
      invariant i <= 10 && x == Rcon(i)
      invariant forall j :: 0 <= j < i ==> rcon[j] == RconWord(j)
    {
      rcon[i] := Pack(Row0(x));
      x := Xtime(x);
      i := i + 1;
    }
  }

  /** The generated tables, read-only once aes_init_done is set. */
  datatype Tables = Tables(
    FSb: seq<Gf>, FT0: seq<Word>, FT1: seq<Word>, FT2: seq<Word>, FT3: seq<Word>,
    RSb: seq<Gf>, RT0: seq<Word>, RT1: seq<Word>, RT2: seq<Word>, RT3: seq<Word>,
    RCON: seq<Word>)
  {
    /** FSb and RSb are the two S-boxes; FT and RT are the S-boxes followed by (Inv)MixColumns. */
    ghost predicate Valid() {
      && Filled(FSb, SubByte, 256) && Filled(RSb, InvSubByte, 256)
      && Filled(FT0, Forward0, 256) && Filled(FT1, Forward1, 256)
      && Filled(FT2, Forward2, 256) && Filled(FT3, Forward3, 256)
      && Filled(RT0, Reverse0, 256) && Filled(RT1, Reverse1, 256)
      && Filled(RT2, Reverse2, 256) && Filled(RT3, Reverse3, 256)
      && |RCON| == 10 && forall j :: 0 <= j < 10 ==> RCON[j] == RconWord(j)
    }
  }

  /** aes_gen_tables */
  method GenTables() returns (t: Tables)
    ensures t.Valid()
  {
    hide Filled, Logarithms, RconWord;
    var pow, log := GenLogarithms();
    var rcon := GenRcon();
    var fsb, rsb := GenSboxes(pow, log);
    var ft0, ft1, ft2, ft3 := GenForward(fsb);
    var rt0, rt1, rt2, rt3 := GenReverse(rsb, pow, log);
    t := Tables(fsb[..], ft0[..], ft1[..], ft2[..], ft3[..], rsb[..], rt0[..], rt1[..], rt2[..], rt3[..], rcon[..]);
  }

  /** The generated S-boxes are permutations of the bytes, each undoing the other. */
  lemma SboxesInverse(fsb: seq<Gf>, rsb: seq<Gf>, a: Gf)
    requires Filled(fsb, SubByte, 256) && Filled(rsb, InvSubByte, 256)
    ensures rsb[Index(fsb[Index(a)])] == a
    ensures fsb[Index(rsb[Index(a)])] == a
  {
    hide SubByte, InvSubByte, Index;
    SubByteInverse(a);
  }
}
