/**
 * src/aes/aes.c: the key schedules, the table-driven rounds and the block operations, against the
 * cipher and the equivalent inverse cipher of FIPS-197.
 */
module Aes {
  import opened Bytes
  import opened Gf256
  import opened AesSpec
  import opened AesWords
  import opened AesTables

  // ---------- Columns from table words ----------

  lemma AddColCommutes(x: Col, y: Col)
    ensures AddCol(x, y) == AddCol(y, x)
  {
    hide Plus;
    PlusCommutes(x.a, y.a);
    PlusCommutes(x.b, y.b);
    PlusCommutes(x.c, y.c);
    PlusCommutes(x.d, y.d);
  }

  lemma AddColAssociates(x: Col, y: Col, z: Col)
    ensures AddCol(AddCol(x, y), z) == AddCol(x, AddCol(y, z))
  {
    hide Plus;
    PlusAssociates(x.a, y.a, z.a);
    PlusAssociates(x.b, y.b, z.b);
    PlusAssociates(x.c, y.c, z.c);
    PlusAssociates(x.d, y.d, z.d);
  }

  lemma ColSplits(x: Col)
    ensures x == AddCol(AddCol(AddCol(Row0(x.a), Row1(x.b)), Row2(x.c)), Row3(x.d))
  {
    hide Plus;
    PlusZero(x.a);
    PlusZero(x.b);
    PlusZero(x.c);
    PlusZero(x.d);
    PlusZero(ZERO);
  }

  lemma MixColumnLinear(x: Col, y: Col)
    ensures MixColumn(AddCol(x, y)) == AddCol(MixColumn(x), MixColumn(y))
  {
    hide Plus, Dot;
    DotLinear(2, 3, 1, 1, x, y);
    DotLinear(1, 2, 3, 1, x, y);
    DotLinear(1, 1, 2, 3, x, y);
    DotLinear(3, 1, 1, 2, x, y);
  }

  lemma MixSplits(x: Col)
    ensures MixColumn(x) == AddCol(AddCol(AddCol(MixColumn(Row0(x.a)), MixColumn(Row1(x.b))),
                                          MixColumn(Row2(x.c))), MixColumn(Row3(x.d)))
  {
    hide MixColumn, AddCol, Row0, Row1, Row2, Row3;
    ColSplits(x);
    MixColumnLinear(Row0(x.a), Row1(x.b));
    MixColumnLinear(AddCol(Row0(x.a), Row1(x.b)), Row2(x.c));
    MixColumnLinear(AddCol(AddCol(Row0(x.a), Row1(x.b)), Row2(x.c)), Row3(x.d));
  }

  lemma InvMixSplits(x: Col)
    ensures InvMixColumn(x) == AddCol(AddCol(AddCol(InvMixColumn(Row0(x.a)), InvMixColumn(Row1(x.b))),
                                             InvMixColumn(Row2(x.c))), InvMixColumn(Row3(x.d)))
  {
    hide InvMixColumn, AddCol, Row0, Row1, Row2, Row3;
    ColSplits(x);
    InvMixColumnLinear(Row0(x.a), Row1(x.b));
    InvMixColumnLinear(AddCol(Row0(x.a), Row1(x.b)), Row2(x.c));
    InvMixColumnLinear(AddCol(AddCol(Row0(x.a), Row1(x.b)), Row2(x.c)), Row3(x.d));
  }

  /** The exclusive or of five packed columns, in the order the round macros write it. */
  function Xor5(k: Word, p: Word, q: Word, r: Word, s: Word): Word { XorW(XorW(XorW(XorW(k, p), q), r), s) }

  lemma Xor5Packs(k: Col, p: Col, q: Col, r: Col, s: Col)
    ensures Xor5(Pack(k), Pack(p), Pack(q), Pack(r), Pack(s)) ==
            Pack(AddCol(AddCol(AddCol(AddCol(p, q), r), s), k))
  {
    hide Pack, XorW, AddCol;
    PackXor(k, p);
    PackXor(AddCol(k, p), q);
    PackXor(AddCol(AddCol(k, p), q), r);
    PackXor(AddCol(AddCol(AddCol(k, p), q), r), s);
    AddColAssociates(k, p, q);
    AddColAssociates(k, AddCol(p, q), r);
    AddColAssociates(k, AddCol(AddCol(p, q), r), s);
    AddColCommutes(k, AddCol(AddCol(AddCol(p, q), r), s));
  }

  /** One output word of AES_FROUND. */
  function FWord(t: Tables, k: Word, a: Gf, b: Gf, c: Gf, d: Gf): (w: Word)
    requires t.Valid()
  {
    hide Filled, Index, SubByte, InvSubByte, RconWord;
    FilledSize(t.FT0, Forward0, 256); FilledSize(t.FT1, Forward1, 256);
    FilledSize(t.FT2, Forward2, 256); FilledSize(t.FT3, Forward3, 256);
    Xor5(k, t.FT0[Index(a)], t.FT1[Index(b)], t.FT2[Index(c)], t.FT3[Index(d)])
  }

  lemma FWordIsRound(t: Tables, k: Col, x: Col)
    requires t.Valid()
    ensures FWord(t, Pack(k), x.a, x.b, x.c, x.d) == Pack(AddCol(MixColumn(SubCol(x)), k))
  {
    hide Filled, Index, SubByte, InvSubByte, RconWord, Pack, Xor5, AddCol, MixColumn, Row0, Row1, Row2, Row3;
    FilledAt(t.FT0, Forward0, x.a);
    FilledAt(t.FT1, Forward1, x.b);
    FilledAt(t.FT2, Forward2, x.c);
    FilledAt(t.FT3, Forward3, x.d);
    var y := SubCol(x);
    MixSplits(y);
    Xor5Packs(k, MixColumn(Row0(y.a)), MixColumn(Row1(y.b)), MixColumn(Row2(y.c)), MixColumn(Row3(y.d)));
  }

  /** One output word of AES_RROUND. */
  function RWord(t: Tables, k: Word, a: Gf, b: Gf, c: Gf, d: Gf): (w: Word)
    requires t.Valid()
  {
    hide Filled, Index, SubByte, InvSubByte, RconWord;
    FilledSize(t.RT0, Reverse0, 256); FilledSize(t.RT1, Reverse1, 256);
    FilledSize(t.RT2, Reverse2, 256); FilledSize(t.RT3, Reverse3, 256);
    Xor5(k, t.RT0[Index(a)], t.RT1[Index(b)], t.RT2[Index(c)], t.RT3[Index(d)])
  }

  lemma RWordIsRound(t: Tables, k: Col, x: Col)
    requires t.Valid()
    ensures RWord(t, Pack(k), x.a, x.b, x.c, x.d) == Pack(AddCol(InvMixColumn(InvSubCol(x)), k))
  {
    hide Filled, Index, SubByte, InvSubByte, RconWord, Pack, Xor5, AddCol, InvMixColumn, Row0, Row1, Row2, Row3;
    FilledAt(t.RT0, Reverse0, x.a);
    FilledAt(t.RT1, Reverse1, x.b);
    FilledAt(t.RT2, Reverse2, x.c);
    FilledAt(t.RT3, Reverse3, x.d);
    var y := InvSubCol(x);
    InvMixSplits(y);
    Xor5Packs(k, InvMixColumn(Row0(y.a)), InvMixColumn(Row1(y.b)), InvMixColumn(Row2(y.c)), InvMixColumn(Row3(y.d)));
  }

  // ---------- The four words of the state ----------

  datatype Words = Words(x0: Word, x1: Word, x2: Word, x3: Word)

  function PackSt(s: St): Words { Words(Pack(s.c0), Pack(s.c1), Pack(s.c2), Pack(s.c3)) }

  /** AES_FROUND with the round key k. */
  function FRound(t: Tables, k: Words, y: Words): Words
    requires t.Valid()
  {
    hide FWord, Filled;
    Words(FWord(t, k.x0, Byte0(y.x0), Byte1(y.x1), Byte2(y.x2), Byte3(y.x3)),
          FWord(t, k.x1, Byte0(y.x1), Byte1(y.x2), Byte2(y.x3), Byte3(y.x0)),
          FWord(t, k.x2, Byte0(y.x2), Byte1(y.x3), Byte2(y.x0), Byte3(y.x1)),
          FWord(t, k.x3, Byte0(y.x3), Byte1(y.x0), Byte2(y.x1), Byte3(y.x2)))
  }

  function RRound(t: Tables, k: Words, y: Words): Words
    requires t.Valid()
  {
    hide RWord, Filled;
    Words(RWord(t, k.x0, Byte0(y.x0), Byte1(y.x3), Byte2(y.x2), Byte3(y.x1)),
          RWord(t, k.x1, Byte0(y.x1), Byte1(y.x0), Byte2(y.x3), Byte3(y.x2)),
          RWord(t, k.x2, Byte0(y.x2), Byte1(y.x1), Byte2(y.x0), Byte3(y.x3)),
          RWord(t, k.x3, Byte0(y.x3), Byte1(y.x2), Byte2(y.x1), Byte3(y.x0)))
  }

  lemma PackedBytes(x: Col)
    ensures Byte0(Pack(x)) == x.a && Byte1(Pack(x)) == x.b && Byte2(Pack(x)) == x.c && Byte3(Pack(x)) == x.d
  {
    hide Byte0, Byte1, Byte2, Byte3, Pack;
    UnpackPack(x);
  }

  lemma PackedState(s: St)
    ensures var w := PackSt(s);
            && Unpack(w.x0) == s.c0 && Unpack(w.x1) == s.c1 && Unpack(w.x2) == s.c2 && Unpack(w.x3) == s.c3
  {
    hide Pack, Unpack;
    UnpackPack(s.c0);
    UnpackPack(s.c1);
    UnpackPack(s.c2);
    UnpackPack(s.c3);
  }

  /** A table round is SubBytes, ShiftRows, MixColumns and AddRoundKey of section 5.1. */
  lemma FRoundIsRound(t: Tables, k: St, s: St)
    requires t.Valid()
    ensures FRound(t, PackSt(k), PackSt(s)) == PackSt(AddRoundKey(MixColumns(ShiftRows(SubBytes(s))), k))
  {
    hide Filled, SubByte, Pack, FWord, AddCol, MixColumn, Byte0, Byte1, Byte2, Byte3;
    PackedState(s);
    var r := ShiftRows(s);
    assert ShiftRows(SubBytes(s)) == SubBytes(r);
    FWordIsRound(t, k.c0, r.c0);
    FWordIsRound(t, k.c1, r.c1);
    FWordIsRound(t, k.c2, r.c2);
    FWordIsRound(t, k.c3, r.c3);
  }

  lemma RRoundIsRound(t: Tables, k: St, s: St)
    requires t.Valid()
    ensures RRound(t, PackSt(k), PackSt(s)) == PackSt(AddRoundKey(InvMixColumns(InvShiftRows(InvSubBytes(s))), k))
  {
    hide Filled, InvSubByte, Pack, RWord, AddCol, InvMixColumn, Byte0, Byte1, Byte2, Byte3;
    PackedState(s);
    var r := InvShiftRows(s);
    assert InvShiftRows(InvSubBytes(s)) == InvSubBytes(r);
    RWordIsRound(t, k.c0, r.c0);
    RWordIsRound(t, k.c1, r.c1);
    RWordIsRound(t, k.c2, r.c2);
    RWordIsRound(t, k.c3, r.c3);
  }

  // ---------- The last round ----------

  /** A byte of each S-box entry, put back together. */
  function FLastWord(t: Tables, k: Word, a: Gf, b: Gf, c: Gf, d: Gf): Word
    requires t.Valid()
  {
    hide Filled, Index, SubByte, InvSubByte, RconWord;
    FilledSize(t.FSb, SubByte, 256);
    XorW(k, Join(t.FSb[Index(a)], t.FSb[Index(b)], t.FSb[Index(c)], t.FSb[Index(d)]))
  }

  function RLastWord(t: Tables, k: Word, a: Gf, b: Gf, c: Gf, d: Gf): Word
    requires t.Valid()
  {
    hide Filled, Index, SubByte, InvSubByte, RconWord;
    FilledSize(t.RSb, InvSubByte, 256);
    XorW(k, Join(t.RSb[Index(a)], t.RSb[Index(b)], t.RSb[Index(c)], t.RSb[Index(d)]))
  }

  lemma FLastWordIs(t: Tables, k: Col, x: Col)
    requires t.Valid()
    ensures FLastWord(t, Pack(k), x.a, x.b, x.c, x.d) == Pack(AddCol(SubCol(x), k))
  {
    hide Filled, Index, SubByte, InvSubByte, RconWord, Pack, XorW, AddCol, Join;
    FilledAt(t.FSb, SubByte, x.a);
    FilledAt(t.FSb, SubByte, x.b);
    FilledAt(t.FSb, SubByte, x.c);
    FilledAt(t.FSb, SubByte, x.d);
    var y := SubCol(x);
    JoinIsPack(y.a, y.b, y.c, y.d);
    PackXor(k, y);
    AddColCommutes(k, y);
  }

  lemma RLastWordIs(t: Tables, k: Col, x: Col)
    requires t.Valid()
    ensures RLastWord(t, Pack(k), x.a, x.b, x.c, x.d) == Pack(AddCol(InvSubCol(x), k))
  {
    hide Filled, Index, SubByte, InvSubByte, RconWord, Pack, XorW, AddCol, Join;
    FilledAt(t.RSb, InvSubByte, x.a);
    FilledAt(t.RSb, InvSubByte, x.b);
    FilledAt(t.RSb, InvSubByte, x.c);
    FilledAt(t.RSb, InvSubByte, x.d);
    var y := InvSubCol(x);
    JoinIsPack(y.a, y.b, y.c, y.d);
    PackXor(k, y);
    AddColCommutes(k, y);
  }

  function FLast(t: Tables, k: Words, y: Words): Words
    requires t.Valid()
  {
    hide FLastWord, Filled;
    Words(FLastWord(t, k.x0, Byte0(y.x0), Byte1(y.x1), Byte2(y.x2), Byte3(y.x3)),
          FLastWord(t, k.x1, Byte0(y.x1), Byte1(y.x2), Byte2(y.x3), Byte3(y.x0)),
          FLastWord(t, k.x2, Byte0(y.x2), Byte1(y.x3), Byte2(y.x0), Byte3(y.x1)),
          FLastWord(t, k.x3, Byte0(y.x3), Byte1(y.x0), Byte2(y.x1), Byte3(y.x2)))
  }

  function RLast(t: Tables, k: Words, y: Words): Words
    requires t.Valid()
  {
    hide RLastWord, Filled;
    Words(RLastWord(t, k.x0, Byte0(y.x0), Byte1(y.x3), Byte2(y.x2), Byte3(y.x1)),
          RLastWord(t, k.x1, Byte0(y.x1), Byte1(y.x0), Byte2(y.x3), Byte3(y.x2)),
          RLastWord(t, k.x2, Byte0(y.x2), Byte1(y.x1), Byte2(y.x0), Byte3(y.x3)),
          RLastWord(t, k.x3, Byte0(y.x3), Byte1(y.x2), Byte2(y.x1), Byte3(y.x0)))
  }

  lemma FLastIs(t: Tables, k: St, s: St)
    requires t.Valid()
    ensures FLast(t, PackSt(k), PackSt(s)) == PackSt(AddRoundKey(ShiftRows(SubBytes(s)), k))
  {
    hide Filled, SubByte, Pack, FLastWord, AddCol, Byte0, Byte1, Byte2, Byte3;
    PackedState(s);
    var r := ShiftRows(s);
    assert ShiftRows(SubBytes(s)) == SubBytes(r);
    FLastWordIs(t, k.c0, r.c0);
    FLastWordIs(t, k.c1, r.c1);
    FLastWordIs(t, k.c2, r.c2);
    FLastWordIs(t, k.c3, r.c3);
  }

  lemma RLastIs(t: Tables, k: St, s: St)
    requires t.Valid()
    ensures RLast(t, PackSt(k), PackSt(s)) == PackSt(AddRoundKey(InvShiftRows(InvSubBytes(s)), k))
  {
    hide Filled, InvSubByte, Pack, RLastWord, AddCol, Byte0, Byte1, Byte2, Byte3;
    PackedState(s);
    var r := InvShiftRows(s);
    assert InvShiftRows(InvSubBytes(s)) == InvSubBytes(r);
    RLastWordIs(t, k.c0, r.c0);
    RLastWordIs(t, k.c1, r.c1);
    RLastWordIs(t, k.c2, r.c2);
    RLastWordIs(t, k.c3, r.c3);
  }

  // ---------- Blocks ----------

  function ColAt(b: seq<Byte>, i: nat): Col
    requires i + 4 <= |b|
  {
    Col(Gf(b[i]), Gf(b[i + 1]), Gf(b[i + 2]), Gf(b[i + 3]))
  }

  function LoadState(b: Block): St { St(ColAt(b, 0), ColAt(b, 4), ColAt(b, 8), ColAt(b, 12)) }

  function ColBytes(x: Col): (b: seq<Byte>)
    ensures |b| == 4
  {
    [x.a.v, x.b.v, x.c.v, x.d.v]
  }

  function StoreState(s: St): Block { ColBytes(s.c0) + ColBytes(s.c1) + ColBytes(s.c2) + ColBytes(s.c3) }

  lemma StoreLoadState(b: Block)
    ensures StoreState(LoadState(b)) == b
  {}

  lemma LoadStoreState(s: St)
    ensures LoadState(StoreState(s)) == s
  {}

  function AddWords(x: Words, k: Words): Words {
    Words(XorW(x.x0, k.x0), XorW(x.x1, k.x1), XorW(x.x2, k.x2), XorW(x.x3, k.x3))
  }

  lemma AddWordsIs(s: St, k: St)
    ensures AddWords(PackSt(s), PackSt(k)) == PackSt(AddRoundKey(s, k))
  {
    hide XorW, Pack, AddCol;
    PackXor(s.c0, k.c0);
    PackXor(s.c1, k.c1);
    PackXor(s.c2, k.c2);
    PackXor(s.c3, k.c3);
  }

  function UnpackSt(w: Words): St { St(Unpack(w.x0), Unpack(w.x1), Unpack(w.x2), Unpack(w.x3)) }

  lemma UnpackPackSt(s: St)
    ensures UnpackSt(PackSt(s)) == s
  {
    hide Pack, Unpack;
    PackedState(s);
  }

  // ---------- A scheduled context ----------

  /** The four words of round key r. */
  function RoundWords(rk: seq<Word>, r: nat): Words
    requires 4 * r + 4 <= |rk|
  {
    Words(rk[4 * r], rk[4 * r + 1], rk[4 * r + 2], rk[4 * r + 3])
  }

  ghost predicate Scheduled(rk: seq<Word>, ks: seq<St>) {
    4 * |ks| <= |rk| && forall r: nat :: r < |ks| ==> RoundWords(rk, r) == PackSt(ks[r])
  }

  const INVALID_KEY_LENGTH := -0x0020

  /** The key as words. */
  function KeyCols(key: seq<Byte>): (cols: seq<Col>)
    ensures |cols| == |key| / 4
  {
    seq(|key| / 4, i requires 0 <= i < |key| / 4 => ColAt(key, 4 * i))
  }

  // ---------- Expanding the key ----------

  /** The first n words are those of the key expansion. */
  ghost predicate Expanded(rk: seq<Word>, key: seq<Col>, n: nat) {
    |key| > 0 && n <= |rk| && forall j: nat :: j < n ==> rk[j] == Pack(KeyWord(key, j))
  }

  lemma NothingExpanded(rk: seq<Word>, key: seq<Col>)
    requires |key| > 0
    ensures Expanded(rk, key, 0)
  {}

  lemma FirstWords(key: seq<Col>, i: nat)
    requires i < |key|
    ensures KeyWord(key, i) == key[i]
  {}

  method PutNext(rk: array<Word>, ghost key: seq<Col>, n: nat, w: Word)
    requires n < rk.Length && Expanded(rk[..], key, n) && w == Pack(KeyWord(key, n))
    modifies rk
    ensures Expanded(rk[..], key, n + 1)
  {
    hide KeyWord, Pack;
    Store(rk, n, w);
  }

  /** The S-box on the bytes of a word, rotated down by one byte when rot is set. */
  function SubWord(t: Tables, x: Word, rot: bool): Word
    requires t.Valid()
  {
    hide Filled, Index, SubByte, InvSubByte, RconWord;
    FilledSize(t.FSb, SubByte, 256);
    var a, b, c, d := t.FSb[Index(Byte0(x))], t.FSb[Index(Byte1(x))], t.FSb[Index(Byte2(x))], t.FSb[Index(Byte3(x))];
    if rot then Join(b, c, d, a) else Join(a, b, c, d)
  }

  lemma SubWordIs(t: Tables, x: Col)
    requires t.Valid()
    ensures SubWord(t, Pack(x), true) == Pack(SubCol(RotWord(x)))
    ensures SubWord(t, Pack(x), false) == Pack(SubCol(x))
  {
    hide Filled, Index, SubByte, InvSubByte, RconWord, Pack, Join, Byte0, Byte1, Byte2, Byte3;
    PackedBytes(x);
    FilledAt(t.FSb, SubByte, x.a);
    FilledAt(t.FSb, SubByte, x.b);
    FilledAt(t.FSb, SubByte, x.c);
    FilledAt(t.FSb, SubByte, x.d);
    var y := SubCol(x);
    JoinIsPack(y.a, y.b, y.c, y.d);
    JoinIsPack(y.b, y.c, y.d, y.a);
  }

  lemma RconAt(t: Tables, i: nat)
    requires t.Valid() && i < 10
    ensures |t.RCON| == 10 && t.RCON[i] == Pack(Row0(Rcon(i)))
  {
    hide Filled, Pack, Rcon;
  }

  /** The first word of a group: the rotated, substituted previous word and a round constant go in. */
  method PutRotated(t: Tables, rk: array<Word>, ghost key: seq<Col>, i: nat, n: nat, nk: nat)
    requires t.Valid() && nk == |key| > 0 && i < 10
    requires n < rk.Length && n % nk == 0 && n / nk == i + 1
    requires Expanded(rk[..], key, n)
    modifies rk
    ensures Expanded(rk[..], key, n + 1)
  {
    hide Filled, RconWord, Tables.Valid, Pack, XorW, AddCol, SubCol, RotWord, SubWord, Row0, Rcon;
    ghost var a, b := KeyWord(key, n - nk), KeyWord(key, n - 1);
    ghost var c, r := SubCol(RotWord(b)), Row0(Rcon(i));
    RconAt(t, i);
    SubWordIs(t, b);
    PackXor(a, r);
    PackXor(AddCol(a, r), c);
    AddColAssociates(a, r, c);
    AddColCommutes(r, c);
    RotatedWord(key, i, n);
    assert rk[..][n - nk] == Pack(a) && rk[..][n - 1] == Pack(b);
    PutNext(rk, key, n, XorW(XorW(rk[n - nk], t.RCON[i]), SubWord(t, rk[n - 1], true)));
  }

  lemma RotatedWord(key: seq<Col>, i: nat, n: nat)
    requires |key| > 0 && n % |key| == 0 && n / |key| == i + 1
    ensures n >= |key|
    ensures KeyWord(key, n) ==
            AddCol(KeyWord(key, n - |key|), AddCol(SubCol(RotWord(KeyWord(key, n - 1))), Row0(Rcon(i))))
  {
    hide AddCol, SubCol, RotWord, Rcon;
  }

  /** An ordinary word: the sum of the one before and the one a group earlier. */
  method PutPlain(rk: array<Word>, ghost key: seq<Col>, n: nat, nk: nat)
    requires nk == |key| > 0 && n < rk.Length && n >= nk && n % nk != 0 && !(nk > 6 && n % nk == 4)
    requires Expanded(rk[..], key, n)
    modifies rk
    ensures Expanded(rk[..], key, n + 1)
  {
    hide Pack, XorW, AddCol, SubCol, RotWord, Rcon;
    PackXor(KeyWord(key, n - nk), KeyWord(key, n - 1));
    assert rk[..][n - nk] == Pack(KeyWord(key, n - nk)) && rk[..][n - 1] == Pack(KeyWord(key, n - 1));
    PutNext(rk, key, n, XorW(rk[n - nk], rk[n - 1]));
  }

  /** The fifth word of a group, substituted but not rotated, for 256-bit keys. */
  method PutSubstituted(t: Tables, rk: array<Word>, ghost key: seq<Col>, n: nat)
    requires t.Valid() && |key| == 8 && n < rk.Length && n >= 8 && n % 8 == 4
    requires Expanded(rk[..], key, n)
    modifies rk
    ensures Expanded(rk[..], key, n + 1)
  {
    hide Filled, RconWord, Tables.Valid, Pack, XorW, AddCol, SubCol, RotWord, SubWord, Rcon;
    SubWordIs(t, KeyWord(key, n - 1));
    PackXor(KeyWord(key, n - 8), SubCol(KeyWord(key, n - 1)));
    assert rk[..][n - 8] == Pack(KeyWord(key, n - 8)) && rk[..][n - 1] == Pack(KeyWord(key, n - 1));
    PutNext(rk, key, n, XorW(rk[n - 8], SubWord(t, rk[n - 1], false)));
  }

  method Expand128(t: Tables, rk: array<Word>, ghost key: seq<Col>)
    requires t.Valid() && rk.Length == 68 && |key| == 4 && Expanded(rk[..], key, 4)
    modifies rk
    ensures Expanded(rk[..], key, 44)
  {
    hide Filled, RconWord, Tables.Valid, Expanded;
    for i := 0 to 10
      invariant Expanded(rk[..], key, 4 * i + 4)
    {
      var n := 4 * i + 4;
      PutRotated(t, rk, key, i, n, 4);
      PutPlain(rk, key, n + 1, 4);
      PutPlain(rk, key, n + 2, 4);
      PutPlain(rk, key, n + 3, 4);
    }
  }

  method Expand192(t: Tables, rk: array<Word>, ghost key: seq<Col>)
    requires t.Valid() && rk.Length == 68 && |key| == 6 && Expanded(rk[..], key, 6)
    modifies rk
    ensures Expanded(rk[..], key, 52)
  {
    hide Filled, RconWord, Tables.Valid, Expanded;
    for i := 0 to 8
      invariant Expanded(rk[..], key, 6 * i + 6)
    {
      var n := 6 * i + 6;
      PutRotated(t, rk, key, i, n, 6);
      PutPlain(rk, key, n + 1, 6);
      PutPlain(rk, key, n + 2, 6);
      PutPlain(rk, key, n + 3, 6);
      PutPlain(rk, key, n + 4, 6);
      PutPlain(rk, key, n + 5, 6);
    }
    FewerExpanded(rk[..], key, 54, 52);
  }

  method Expand256(t: Tables, rk: array<Word>, ghost key: seq<Col>)
    requires t.Valid() && rk.Length == 68 && |key| == 8 && Expanded(rk[..], key, 8)
    modifies rk
    ensures Expanded(rk[..], key, 60)
  {
    hide Filled, RconWord, Tables.Valid, Expanded;
    for i := 0 to 7
      invariant Expanded(rk[..], key, 8 * i + 8)
    {
      var n := 8 * i + 8;
      PutRotated(t, rk, key, i, n, 8);
      PutPlain(rk, key, n + 1, 8);
      PutPlain(rk, key, n + 2, 8);
      PutPlain(rk, key, n + 3, 8);
      PutSubstituted(t, rk, key, n + 4);
      PutPlain(rk, key, n + 5, 8);
      PutPlain(rk, key, n + 6, 8);
      PutPlain(rk, key, n + 7, 8);
    }
    FewerExpanded(rk[..], key, 64, 60);
  }

  lemma FewerExpanded(rk: seq<Word>, key: seq<Col>, n: nat, m: nat)
    requires Expanded(rk, key, n) && m <= n
    ensures Expanded(rk, key, m)
  {
    hide KeyWord, Pack;
  }

  lemma ExpandedSchedule(rk: seq<Word>, key: seq<Col>, n: nat)
    requires Expanded(rk, key, n) && n == 4 * (|key| + 7)
    ensures Scheduled(rk, Schedule(key))
  {
    hide KeyWord, Pack;
    var ks := Schedule(key);
    forall r: nat | r < |ks| ensures RoundWords(rk, r) == PackSt(ks[r]) {
      assert ks[r] == RoundKey(key, r);
    }
  }

  // ---------- Inverting the schedule ----------

  /** The word RT0[FSb[..]] ^ RT1[FSb[..]] ^ RT2[FSb[..]] ^ RT3[FSb[..]] */
  function InvWord(t: Tables, x: Word): Word
    requires t.Valid()
  {
    hide Filled, Index, SubByte, InvSubByte, RconWord;
    FilledSize(t.FSb, SubByte, 256);
    FilledSize(t.RT0, Reverse0, 256); FilledSize(t.RT1, Reverse1, 256);
    FilledSize(t.RT2, Reverse2, 256); FilledSize(t.RT3, Reverse3, 256);
    XorW(XorW(XorW(t.RT0[Index(t.FSb[Index(Byte0(x))])], t.RT1[Index(t.FSb[Index(Byte1(x))])]),
              t.RT2[Index(t.FSb[Index(Byte2(x))])]), t.RT3[Index(t.FSb[Index(Byte3(x))])])
  }

  lemma InvWordIs(t: Tables, x: Col)
    requires t.Valid()
    ensures InvWord(t, Pack(x)) == Pack(InvMixColumn(x))
  {
    hide Filled, Index, SubByte, InvSubByte, RconWord, Pack, XorW, AddCol, InvMixColumn;
    hide Byte0, Byte1, Byte2, Byte3, Row0, Row1, Row2, Row3;
    PackedBytes(x);
    FilledAt(t.FSb, SubByte, x.a); FilledAt(t.RT0, Reverse0, SubByte(x.a)); SubByteInverse(x.a);
    FilledAt(t.FSb, SubByte, x.b); FilledAt(t.RT1, Reverse1, SubByte(x.b)); SubByteInverse(x.b);
    FilledAt(t.FSb, SubByte, x.c); FilledAt(t.RT2, Reverse2, SubByte(x.c)); SubByteInverse(x.c);
    FilledAt(t.FSb, SubByte, x.d); FilledAt(t.RT3, Reverse3, SubByte(x.d)); SubByteInverse(x.d);
    InvMixSplits(x);
    var p, q := InvMixColumn(Row0(x.a)), InvMixColumn(Row1(x.b));
    var r, s := InvMixColumn(Row2(x.c)), InvMixColumn(Row3(x.d));
    PackXor(p, q);
    PackXor(AddCol(p, q), r);
    PackXor(AddCol(AddCol(p, q), r), s);
  }

  ghost predicate Inverted(rk: seq<Word>, ks: seq<St>, n: nat) {
    4 * |ks| <= |rk| && n <= |ks| && forall r: nat :: r < n ==> RoundWords(rk, r) == PackSt(InvSchedule(ks)[r])
  }

  lemma NothingInverted(rk: seq<Word>, ks: seq<St>)
    requires 4 * |ks| <= |rk|
    ensures Inverted(rk, ks, 0)
  {}

  /** rk with the words k in the place of round key r. */
  function WithRound(rk: seq<Word>, r: nat, k: Words): seq<Word>
    requires 4 * r + 4 <= |rk|
  {
    rk[4 * r := k.x0][4 * r + 1 := k.x1][4 * r + 2 := k.x2][4 * r + 3 := k.x3]
  }

  method PutRound(rk: array<Word>, r: nat, k: Words)
    requires 4 * r + 4 <= rk.Length
    modifies rk
    ensures rk[..] == WithRound(old(rk[..]), r, k)
  {
    Store(rk, 4 * r, k.x0);
    Store(rk, 4 * r + 1, k.x1);
    Store(rk, 4 * r + 2, k.x2);
    Store(rk, 4 * r + 3, k.x3);
  }

  lemma WithRoundHolds(rk: seq<Word>, ks: seq<St>, n: nat, k: Words)
    requires Inverted(rk, ks, n) && n < |ks| && k == PackSt(InvSchedule(ks)[n])
    ensures Inverted(WithRound(rk, n, k), ks, n + 1)
  {
    hide PackSt, InvSchedule;
    var rk' := WithRound(rk, n, k);
    forall r: nat | r < n + 1 ensures RoundWords(rk', r) == PackSt(InvSchedule(ks)[r]) {
      if r < n {
        assert RoundWords(rk', r) == RoundWords(rk, r);
      }
    }
  }

  /** The words of a decryption round key made from those of an encryption round key. */
  function DecWords(t: Tables, k: Words, inner: bool): Words
    requires t.Valid()
  {
    hide InvWord, Filled;
    if inner then Words(InvWord(t, k.x0), InvWord(t, k.x1), InvWord(t, k.x2), InvWord(t, k.x3)) else k
  }

  lemma DecWordsIs(t: Tables, ks: seq<St>, r: nat)
    requires t.Valid() && r < |ks|
    ensures DecWords(t, PackSt(ks[|ks| - 1 - r]), r != 0 && r != |ks| - 1) == PackSt(InvSchedule(ks)[r])
  {
    hide Filled, InvWord, Pack, InvMixColumn;
    var s := ks[|ks| - 1 - r];
    assert InvSchedule(ks)[r] == if r == 0 || r == |ks| - 1 then s else InvMixColumns(s);
    InvWordIs(t, s.c0);
    InvWordIs(t, s.c1);
    InvWordIs(t, s.c2);
    InvWordIs(t, s.c3);
  }

  lemma InvertedAll(rk: seq<Word>, ks: seq<St>)
    requires Inverted(rk, ks, |ks|)
    ensures Scheduled(rk, InvSchedule(ks))
  {
    hide InvSchedule, PackSt;
  }

  lemma ScheduledAt(rk: seq<Word>, ks: seq<St>, r: nat)
    requires Scheduled(rk, ks) && r < |ks|
    ensures 4 * r + 4 <= |rk| && RoundWords(rk, r) == PackSt(ks[r])
  {}

  // ---------- Block encryption and decryption under a key ----------

  ghost function EncryptBlock(key: seq<Byte>, b: Block): Block
    requires |key| >= 4
  {
    hide Cipher, Schedule, LoadState, StoreState;
    StoreState(Cipher(LoadState(b), Schedule(KeyCols(key))))
  }

  ghost function DecryptBlock(key: seq<Byte>, b: Block): Block
    requires |key| >= 4
  {
    hide EqInvCipher, Schedule, InvSchedule, LoadState, StoreState;
    StoreState(EqInvCipher(LoadState(b), InvSchedule(Schedule(KeyCols(key)))))
  }

  /** For every key and block, decryption under the inverted schedule undoes encryption. */
  lemma DecryptUndoesEncrypt(key: seq<Byte>, b: Block)
    requires |key| == 16 || |key| == 24 || |key| == 32
    ensures DecryptBlock(key, EncryptBlock(key, b)) == b
  {
    hide Cipher, EqInvCipher, Schedule, InvSchedule, LoadState, StoreState;
    var ks := Schedule(KeyCols(key));
    LoadStoreState(Cipher(LoadState(b), ks));
    CipherUndone(LoadState(b), ks);
    StoreLoadState(b);
  }

  class Context {
    var nr: nat
    const rk: array<Word>

    /** The context holds the round keys ks of a key of a supported size. */
    ghost predicate Holds(ks: seq<St>)
      reads this, rk
    {
      && (nr == 10 || nr == 12 || nr == 14) && |ks| == nr + 1
      && rk.Length == 68 && Scheduled(rk[..], ks)
    }

    /** mbedtls_aes_init */
    constructor ()
      ensures fresh(rk) && rk.Length == 68 && nr == 0
    {
      nr, rk := 0, new Word[68](_ => Word(0));
    }

    /** mbedtls_aes_encrypt */
    method Encrypt(t: Tables, ghost ks: seq<St>, input: Block) returns (output: Block)
      requires t.Valid() && Holds(ks)
      ensures output == StoreState(Cipher(LoadState(input), ks))
    {
      hide Filled, RconWord, PackSt, FRound, FLast, AddWords, AddRoundKey;
      hide MixColumns, ShiftRows, SubBytes, Tables.Valid;
      hide LoadState, StoreState, UnpackSt;
      ghost var s := LoadState(input);
      var x := AddWords(PackSt(LoadState(input)), RoundWords(rk[..], 0));
      AddWordsIs(s, ks[0]);
      var p, i := 1, nr / 2 - 1;
      while i > 0
        invariant 0 <= i && p == nr - 1 - 2 * i
        invariant x == PackSt(EncRounds(s, ks, p - 1))
      {
        FRoundIsRound(t, ks[p], EncRounds(s, ks, p - 1));
        var y := FRound(t, RoundWords(rk[..], p), x);
        FRoundIsRound(t, ks[p + 1], EncRounds(s, ks, p));
        x := FRound(t, RoundWords(rk[..], p + 1), y);
        p, i := p + 2, i - 1;
      }
      FRoundIsRound(t, ks[p], EncRounds(s, ks, p - 1));
      var y := FRound(t, RoundWords(rk[..], p), x);
      FLastIs(t, ks[p + 1], EncRounds(s, ks, p));
      x := FLast(t, RoundWords(rk[..], p + 1), y);
      UnpackPackSt(Cipher(s, ks));
      output := StoreState(UnpackSt(x));
    }

    /** mbedtls_aes_decrypt */
    method Decrypt(t: Tables, ghost dk: seq<St>, input: Block) returns (output: Block)
      requires t.Valid() && Holds(dk)
      ensures output == StoreState(EqInvCipher(LoadState(input), dk))
    {
      hide Filled, RconWord, PackSt, RRound, RLast, AddWords, AddRoundKey;
      hide InvMixColumns, InvShiftRows, InvSubBytes, Tables.Valid;
      hide LoadState, StoreState, UnpackSt;
      ghost var s := LoadState(input);
      var x := AddWords(PackSt(LoadState(input)), RoundWords(rk[..], 0));
      AddWordsIs(s, dk[0]);
      var p, i := 1, nr / 2 - 1;
      while i > 0
        invariant 0 <= i && p == nr - 1 - 2 * i
        invariant x == PackSt(DecRounds(s, dk, p - 1))
      {
        RRoundIsRound(t, dk[p], DecRounds(s, dk, p - 1));
        var y := RRound(t, RoundWords(rk[..], p), x);
        RRoundIsRound(t, dk[p + 1], DecRounds(s, dk, p));
        x := RRound(t, RoundWords(rk[..], p + 1), y);
        p, i := p + 2, i - 1;
      }
      RRoundIsRound(t, dk[p], DecRounds(s, dk, p - 1));
      var y := RRound(t, RoundWords(rk[..], p), x);
      RLastIs(t, dk[p + 1], DecRounds(s, dk, p));
      x := RLast(t, RoundWords(rk[..], p + 1), y);
      UnpackPackSt(EqInvCipher(s, dk));
      output := StoreState(UnpackSt(x));
    }

    /** mbedtls_aes_setkey_enc; the key has keybits / 8 bytes. */
    method SetKeyEnc(t: Tables, key: seq<Byte>, keybits: int) returns (ret: int)
      requires t.Valid() && rk.Length == 68
      requires keybits == 8 * |key|
      modifies this`nr, rk
      ensures ret == if keybits == 128 || keybits == 192 || keybits == 256 then 0 else INVALID_KEY_LENGTH
      ensures ret == 0 ==> Holds(Schedule(KeyCols(key)))
      ensures ret != 0 ==> nr == old(nr) && rk[..] == old(rk[..])
    {
      hide Filled, RconWord, Tables.Valid, KeyWord, Pack, Expanded, Schedule, PackSt, RoundWords;
      if keybits == 128 {
        nr := 10;
      } else if keybits == 192 {
        nr := 12;
      } else if keybits == 256 {
        nr := 14;
      } else {
        return INVALID_KEY_LENGTH;
      }
      ghost var cols := KeyCols(key);
      var i := 0;
      NothingExpanded(rk[..], cols);
      while i < keybits / 32
        invariant 0 <= i <= keybits / 32
        invariant Expanded(rk[..], cols, i) && nr == keybits / 32 + 6
      {
        FirstWords(cols, i);
        PutNext(rk, cols, i, Pack(ColAt(key, 4 * i)));
        i := i + 1;
      }
      if nr == 10 {
        Expand128(t, rk, cols);
      } else if nr == 12 {
        Expand192(t, rk, cols);
      } else {
        Expand256(t, rk, cols);
      }
      ExpandedSchedule(rk[..], cols, 4 * (nr + 1));
      return 0;
    }

    /** mbedtls_aes_setkey_dec */
    method SetKeyDec(t: Tables, key: seq<Byte>, keybits: int) returns (ret: int)
      requires t.Valid() && rk.Length == 68
      requires keybits == 8 * |key|
      modifies this`nr, rk
      ensures ret == if keybits == 128 || keybits == 192 || keybits == 256 then 0 else INVALID_KEY_LENGTH
      ensures ret == 0 ==> Holds(InvSchedule(Schedule(KeyCols(key))))
      ensures ret != 0 ==> nr == old(nr) && rk[..] == old(rk[..])
    {
      hide Filled, RconWord, Tables.Valid, Schedule, InvSchedule, PackSt, RoundWords;
      hide Scheduled, Inverted, DecWords, WithRound, KeyCols;
      var cty := new Context();
      ret := cty.SetKeyEnc(t, key, keybits);
      if ret != 0 {
        return;
      }
      nr := cty.nr;
      ghost var ks := Schedule(KeyCols(key));
      NothingInverted(rk[..], ks);
      var r := 0;
      while r <= nr
        invariant 0 <= r <= nr + 1
        invariant cty.Holds(ks) && nr == cty.nr && rk != cty.rk && rk.Length == 68
        invariant Inverted(rk[..], ks, r)
      {
        ScheduledAt(cty.rk[..], ks, nr - r);
        DecWordsIs(t, ks, r);
        var k := DecWords(t, RoundWords(cty.rk[..], nr - r), r != 0 && r != nr);
        WithRoundHolds(rk[..], ks, r, k);
        PutRound(rk, r, k);
        r := r + 1;
      }
      InvertedAll(rk[..], ks);
    }
  }
}
