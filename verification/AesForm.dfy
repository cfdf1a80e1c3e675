/**
 * FIPS 197 byte by byte: what each byte of a round, of the key expansion and of the whole cipher is,
 * by its row and column. The round functions themselves are not mentioned.
 */
module AesForm {
  import opened Bytes
  import opened Gf256
  import opened AesSpec
  import opened Aes

  // ---------- The state, section 3.4 ----------

  function RowOf(x: Col, r: nat): Gf
    requires r < 4
  {
    if r == 0 then x.a else if r == 1 then x.b else if r == 2 then x.c else x.d
  }

  function ColumnOf(s: St, c: nat): Col
    requires c < 4
  {
    if c == 0 then s.c0 else if c == 1 then s.c1 else if c == 2 then s.c2 else s.c3
  }

  /** s[r, c] */
  function At(s: St, r: nat, c: nat): Gf
    requires r < 4 && c < 4
  {
    RowOf(ColumnOf(s, c), r)
  }

  /** s[r, c] is byte r + 4c. */
  ghost predicate IsStateOf(b: Block, s: St) {
    forall r: nat, c: nat :: r < 4 && c < 4 ==> At(s, r, c) == Gf(b[r + 4 * c])
  }

  /** Blocks are read and written in that order. */
  lemma LoadedBytes(b: Block)
    ensures IsStateOf(b, LoadState(b))
  {}

  lemma StoredBytes(s: St)
    ensures IsStateOf(StoreState(s), s)
  {
    hide LoadState, StoreState, IsStateOf;
    LoadedBytes(StoreState(s));
    LoadStoreState(s);
  }

  // ---------- A round, sections 5.1.1 to 5.1.4 ----------

  /** The coefficients {02}, {03}, {01}, {01} of the first row; each row is the one above turned right. */
  function Coefficient(r: nat, j: nat): Gf
    requires r < 4 && j < 4
  {
    Gf([2, 3, 1, 1][(j + 4 - r) % 4])
  }

  /** The product of the coefficient and the substituted byte of row j that ShiftRows brings to column c. */
  ghost function Term(s: St, r: nat, c: nat, j: nat): Gf
    requires r < 4 && c < 4 && j < 4
  {
    Times(Coefficient(r, j), SubByte(At(s, j, (c + j) % 4)))
  }

  ghost predicate IsRound(s: St, k: St, t: St) {
    forall r: nat, c: nat :: r < 4 && c < 4 ==>
      At(t, r, c) == Plus(Sum4(Term(s, r, c, 0), Term(s, r, c, 1), Term(s, r, c, 2), Term(s, r, c, 3)), At(k, r, c))
  }

  /** The last round does not mix. */
  ghost predicate IsLastRound(s: St, k: St, t: St) {
    forall r: nat, c: nat :: r < 4 && c < 4 ==> At(t, r, c) == Plus(SubByte(At(s, r, (c + r) % 4)), At(k, r, c))
  }

  ghost predicate IsSum(s: St, k: St, t: St) {
    forall r: nat, c: nat :: r < 4 && c < 4 ==> At(t, r, c) == Plus(At(s, r, c), At(k, r, c))
  }

  lemma SumBytes(s: St, k: St)
    ensures IsSum(s, k, AddRoundKey(s, k))
  {
    hide Plus;
  }

  lemma ShiftedAt(s: St, r: nat, c: nat)
    requires r < 4 && c < 4
    ensures At(ShiftRows(SubBytes(s)), r, c) == SubByte(At(s, r, (c + r) % 4))
  {
    hide SubByte;
  }

  lemma MixedAt(s: St, r: nat, c: nat)
    requires r < 4 && c < 4
    ensures At(MixColumns(s), r, c) ==
            Sum4(Times(Coefficient(r, 0), At(s, 0, c)), Times(Coefficient(r, 1), At(s, 1, c)),
                 Times(Coefficient(r, 2), At(s, 2, c)), Times(Coefficient(r, 3), At(s, 3, c)))
  {
    hide Times, Sum4;
  }

  /** A round of the cipher, byte by byte. */
  lemma RoundBytes(s: St, k: St)
    ensures IsRound(s, k, AddRoundKey(MixColumns(ShiftRows(SubBytes(s))), k))
    ensures IsLastRound(s, k, AddRoundKey(ShiftRows(SubBytes(s)), k))
  {
    hide SubByte, Times, Plus, Sum4, ShiftRows, SubBytes, MixColumns, AddRoundKey, Coefficient, At;
    var u := ShiftRows(SubBytes(s));
    SumBytes(MixColumns(u), k);
    SumBytes(u, k);
    forall r: nat, c: nat | r < 4 && c < 4
      ensures At(u, r, c) == SubByte(At(s, r, (c + r) % 4))
    {
      ShiftedAt(s, r, c);
    }
    forall r: nat, c: nat | r < 4 && c < 4
      ensures At(MixColumns(u), r, c) ==
              Sum4(Term(s, r, c, 0), Term(s, r, c, 1), Term(s, r, c, 2), Term(s, r, c, 3))
    {
      MixedAt(u, r, c);
    }
  }

  // ---------- The key expansion, section 5.2 ----------

  /** The first words are the key. */
  lemma KeyWordGiven(key: seq<Byte>, n: nat, r: nat)
    requires r < 4 && n < |key| / 4
    ensures RowOf(KeyWord(KeyCols(key), n), r) == Gf(key[4 * n + r])
  {}

  /** At each multiple of nk: byte r of the word nk back, plus the substituted byte r + 1 of the last word. */
  lemma KeyWordRotated(key: seq<Col>, n: nat, j: nat, r: nat)
    requires |key| > 0 && n % |key| == 0 && n / |key| == j + 1 && r < 4
    ensures n >= |key|
    ensures var turned := Plus(RowOf(KeyWord(key, n - |key|), r), SubByte(RowOf(KeyWord(key, n - 1), (r + 1) % 4)));
            RowOf(KeyWord(key, n), r) == if r == 0 then Plus(turned, Rcon(j)) else turned
  {
    hide SubByte, Rcon, Plus, KeyWord;
    RotatedWord(key, j, n);
    var a, b := KeyWord(key, n - |key|), KeyWord(key, n - 1);
    PlusAssociates(a.a, SubByte(b.b), Rcon(j));
    PlusZero(SubByte(b.c));
    PlusZero(SubByte(b.d));
    PlusZero(SubByte(b.a));
  }

  /** For keys of more than six words also in the middle, without turning. */
  lemma KeyWordSubstituted(key: seq<Col>, n: nat, r: nat)
    requires |key| > 6 && n >= |key| && n % |key| == 4 && r < 4
    ensures RowOf(KeyWord(key, n), r) ==
            Plus(RowOf(KeyWord(key, n - |key|), r), SubByte(RowOf(KeyWord(key, n - 1), r)))
  {
    hide SubByte, Rcon, Plus;
  }

  lemma KeyWordPlain(key: seq<Col>, n: nat, r: nat)
    requires |key| > 0 && n >= |key| && n % |key| != 0 && !(|key| > 6 && n % |key| == 4) && r < 4
    ensures RowOf(KeyWord(key, n), r) == Plus(RowOf(KeyWord(key, n - |key|), r), RowOf(KeyWord(key, n - 1), r))
  {
    hide SubByte, Rcon, Plus;
  }

  /** The ten constants the schedules of 128-bit keys need. */
  lemma RconValues(j: nat)
    requires j < 10
    ensures Rcon(j) == Gf([0x01, 0x02, 0x04, 0x08, 0x10, 0x20, 0x40, 0x80, 0x1b, 0x36][j])
  {
    if j > 0 {
      RconValues(j - 1);
    }
  }

  /** The value of the S-box at an element whose inverse is known. */
  lemma SubByteBy(a: Gf, r: Gf)
    requires a != ZERO && Times(a, r) == ONE
    ensures SubByte(a) == Affine(r)
  {
    hide Times, Affine, Inverse;
    InverseUnique(a, r, Inverse(a));
  }

  lemma SomeInverses()
    ensures Times(Gf(0xcf), Gf(0xe6)) == ONE && Times(Gf(0x4f), Gf(0x09)) == ONE
    ensures Times(Gf(0x3c), Gf(0x77)) == ONE && Times(Gf(0x09), Gf(0x4f)) == ONE
  {}

  lemma SomeSubstitutions()
    ensures SubByte(Gf(0xcf)) == Gf(0x8a) && SubByte(Gf(0x4f)) == Gf(0x84)
    ensures SubByte(Gf(0x3c)) == Gf(0xeb) && SubByte(Gf(0x09)) == Gf(0x01)
  {
    hide Times, SubByte;
    SomeInverses();
    SubByteBy(Gf(0xcf), Gf(0xe6));
    SubByteBy(Gf(0x4f), Gf(0x09));
    SubByteBy(Gf(0x3c), Gf(0x77));
    SubByteBy(Gf(0x09), Gf(0x4f));
  }

  const EXAMPLE_KEY: seq<Byte> := [0x2b, 0x7e, 0x15, 0x16, 0x28, 0xae, 0xd2, 0xa6,
                                   0xab, 0xf7, 0x15, 0x88, 0x09, 0xcf, 0x4f, 0x3c]

  /** Appendix A.1 of FIPS 197: the first word made from the example key. */
  lemma ExampleWord()
    ensures KeyWord(KeyCols(EXAMPLE_KEY), 4) == Col(Gf(0xa0), Gf(0xfa), Gf(0xfe), Gf(0x17))
  {
    hide SubByte, KeyWord, Rcon;
    var key := KeyCols(EXAMPLE_KEY);
    FirstWords(key, 0);
    FirstWords(key, 3);
    KeyWordRotated(key, 4, 0, 0);
    KeyWordRotated(key, 4, 0, 1);
    KeyWordRotated(key, 4, 0, 2);
    KeyWordRotated(key, 4, 0, 3);
    RconValues(0);
    SomeSubstitutions();
  }

  // ---------- The cipher, section 5.1 ----------

  /** Column c of round key i is word 4i + c of the expanded key. */
  ghost predicate IsRoundKey(key: seq<Col>, i: nat, k: St)
    requires |key| > 0
  {
    forall r: nat, c: nat :: r < 4 && c < 4 ==> At(k, r, c) == RowOf(KeyWord(key, 4 * i + c), r)
  }

  /** An encryption of input to output: the key added, nr - 1 rounds and the last one. */
  ghost predicate IsEncryption(key: seq<Col>, input: Block, ks: seq<St>, states: seq<St>, output: Block)
    requires |key| > 0
  {
    var nr := |key| + 6;
    && |ks| == nr + 1 && |states| == nr + 2
    && (forall i :: 0 <= i <= nr ==> IsRoundKey(key, i, ks[i]))
    && IsStateOf(input, states[0])
    && IsSum(states[0], ks[0], states[1])
    && (forall i :: 0 < i < nr ==> IsRound(states[i], ks[i], states[i + 1]))
    && IsLastRound(states[nr], ks[nr], states[nr + 1])
    && IsStateOf(output, states[nr + 1])
  }

  lemma RoundKeyIs(key: seq<Col>, i: nat)
    requires |key| > 0
    ensures IsRoundKey(key, i, RoundKey(key, i))
  {
    hide KeyWord;
  }

  /** For every key and block there are such states from the block to its encryption. */
  lemma EncryptsByteByByte(key: seq<Byte>, b: Block) returns (ks: seq<St>, states: seq<St>)
    requires |key| >= 4
    ensures IsEncryption(KeyCols(key), b, ks, states, EncryptBlock(key, b))
  {
    hide KeyWord, RoundKey, IsRoundKey, IsRound, IsLastRound, IsSum, IsStateOf;
    hide AddRoundKey, MixColumns, ShiftRows, SubBytes, LoadState, StoreState;
    var cols, s := KeyCols(key), LoadState(b);
    ks := Schedule(cols);
    var nr := |cols| + 6;
    states := [s] + seq(nr, i requires 0 <= i < nr => EncRounds(s, ks, i)) + [Cipher(s, ks)];
    forall i: nat | i <= nr ensures IsRoundKey(cols, i, ks[i]) {
      RoundKeyIs(cols, i);
    }
    LoadedBytes(b);
    SumBytes(s, ks[0]);
    forall i: nat | 0 < i < nr ensures IsRound(states[i], ks[i], states[i + 1]) {
      RoundBytes(states[i], ks[i]);
    }
    RoundBytes(states[nr], ks[nr]);
    StoredBytes(Cipher(s, ks));
  }

  // ---------- There is only one such output ----------

  lemma SameState(s: St, t: St)
    requires forall r: nat, c: nat :: r < 4 && c < 4 ==> At(s, r, c) == At(t, r, c)
    ensures s == t
  {
    SameColumn(s, t, 0);
    SameColumn(s, t, 1);
    SameColumn(s, t, 2);
    SameColumn(s, t, 3);
  }

  lemma SameColumn(s: St, t: St, c: nat)
    requires c < 4 && forall r: nat :: r < 4 ==> At(s, r, c) == At(t, r, c)
    ensures ColumnOf(s, c) == ColumnOf(t, c)
  {
    hide ColumnOf;
    assert At(s, 0, c) == At(t, 0, c) && At(s, 1, c) == At(t, 1, c);
    assert At(s, 2, c) == At(t, 2, c) && At(s, 3, c) == At(t, 3, c);
  }

  lemma StepUnique(s: St, k: St, t: St, u: St)
    ensures IsSum(s, k, t) && IsSum(s, k, u) ==> t == u
    ensures IsRound(s, k, t) && IsRound(s, k, u) ==> t == u
    ensures IsLastRound(s, k, t) && IsLastRound(s, k, u) ==> t == u
  {
    hide At, Term, Plus, Sum4, SubByte;
    if (IsSum(s, k, t) && IsSum(s, k, u)) || (IsRound(s, k, t) && IsRound(s, k, u)) ||
       (IsLastRound(s, k, t) && IsLastRound(s, k, u)) {
      SameState(t, u);
    }
  }

  lemma StateUnique(b: Block, s: St, t: St)
    requires IsStateOf(b, s) && IsStateOf(b, t)
    ensures s == t
  {
    hide At;
    SameState(s, t);
  }

  lemma RoundKeyUnique(key: seq<Col>, i: nat, k: St, l: St)
    requires |key| > 0 && IsRoundKey(key, i, k) && IsRoundKey(key, i, l)
    ensures k == l
  {
    hide At, KeyWord;
    SameState(k, l);
  }

  lemma OutputUnique(b: Block, c: Block, s: St)
    requires IsStateOf(b, s) && IsStateOf(c, s)
    ensures b == c
  {
    hide At;
    forall i | 0 <= i < 16 ensures b[i] == c[i] {
      assert i == i % 4 + 4 * (i / 4);
      assert At(s, i % 4, i / 4) == Gf(b[i]) == Gf(c[i]);
    }
  }

  lemma {:induction false} SameStates(key: seq<Col>, input: Block, ks: seq<St>, st: seq<St>, out: Block,
                                      ks': seq<St>, st': seq<St>, out': Block, i: nat)
    requires |key| > 0 && IsEncryption(key, input, ks, st, out) && IsEncryption(key, input, ks', st', out')
    requires i <= |key| + 7
    ensures st[i] == st'[i]
  {
    hide IsRoundKey, IsRound, IsLastRound, IsSum, IsStateOf;
    if i == 0 {
      StateUnique(input, st[0], st'[0]);
    } else {
      SameStates(key, input, ks, st, out, ks', st', out', i - 1);
      RoundKeyUnique(key, i - 1, ks[i - 1], ks'[i - 1]);
      StepUnique(st[i - 1], ks[i - 1], st[i], st'[i]);
    }
  }

  /** Whatever comes out of states that follow these rules is the encryption. */
  lemma OnlyEncryption(key: seq<Byte>, b: Block, ks: seq<St>, states: seq<St>, output: Block)
    requires |key| >= 4 && IsEncryption(KeyCols(key), b, ks, states, output)
    ensures output == EncryptBlock(key, b)
  {
    hide EncryptBlock, IsRoundKey, IsRound, IsLastRound, IsSum, IsStateOf;
    var ks', states' := EncryptsByteByByte(key, b);
    var n := |KeyCols(key)| + 7;
    SameStates(KeyCols(key), b, ks, states, output, ks', states', EncryptBlock(key, b), n);
    OutputUnique(output, EncryptBlock(key, b), states[n]);
  }
}
