/**
 * The cipher modes of src/aes/aes.c over an arbitrary block function: CBC, CFB128, CFB8 and CTR.
 * Each byte-wise mode is a machine whose carried state lets a message be processed in pieces.
 */
module BlockModes {
  import opened Basics
  import opened BlockCipher
  import opened Bytes
  import opened Counter

  const INVALID_INPUT_LENGTH := -0x0022

  // ---------- CBC ----------

  /** C_j = E(P_j + C_(j-1)), with C_0 the IV. */
  function CbcEncrypt(E: Cipher, iv: Block, p: seq<Byte>): (c: seq<Byte>)
    requires |p| % 16 == 0
    ensures |c| == |p|
    decreases |p|
  {
    if p == [] then []
    else
      var c := E(Xor(p[..16], iv));
      c + CbcEncrypt(E, c, p[16..])
  }

  /** P_j = D(C_j) + C_(j-1) */
  function CbcDecrypt(D: Cipher, iv: Block, c: seq<Byte>): (p: seq<Byte>)
    requires |c| % 16 == 0
    ensures |p| == |c|
    decreases |c|
  {
    if c == [] then []
    else Xor(D(c[..16]), iv) + CbcDecrypt(D, c[..16], c[16..])
  }

  /** The IV a call leaves behind: the last ciphertext block. */
  function NextIv(iv: Block, c: seq<Byte>): Block
    requires |c| % 16 == 0
  {
    if c == [] then iv else c[|c| - 16..]
  }

  /** The bytes a call with f writes, whichever direction. */
  function Cbc(f: Cipher, mode: Mode, iv: Block, input: seq<Byte>): (r: seq<Byte>)
    requires |input| % 16 == 0
    ensures |r| == |input|
  {
    if mode == Encrypt then CbcEncrypt(f, iv, input) else CbcDecrypt(f, iv, input)
  }

  function CbcIv(f: Cipher, mode: Mode, iv: Block, input: seq<Byte>): Block
    requires |input| % 16 == 0
  {
    NextIv(iv, if mode == Encrypt then CbcEncrypt(f, iv, input) else input)
  }

  lemma {:induction false} CbcEncryptAppends(E: Cipher, iv: Block, a: seq<Byte>, b: seq<Byte>)
    requires |a| % 16 == 0 && |b| % 16 == 0
    ensures CbcEncrypt(E, iv, a + b) == CbcEncrypt(E, iv, a) + CbcEncrypt(E, NextIv(iv, CbcEncrypt(E, iv, a)), b)
    decreases |a|
  {
    hide Xor;
    if a == [] {
      assert a + b == b;
    } else {
      assert (a + b)[..16] == a[..16] && (a + b)[16..] == a[16..] + b;
      var c := E(Xor(a[..16], iv));
      CbcEncryptAppends(E, c, a[16..], b);
      NextIvAppends(iv, c, CbcEncrypt(E, c, a[16..]));
    }
  }

  lemma NextIvAppends(iv: Block, c: Block, rest: seq<Byte>)
    requires |rest| % 16 == 0
    ensures NextIv(iv, c + rest) == NextIv(c, rest)
  {}

  lemma CbcDecryptUnfolds(D: Cipher, iv: Block, c: Block, rest: seq<Byte>)
    requires |rest| % 16 == 0
    ensures CbcDecrypt(D, iv, c + rest) == Xor(D(c), iv) + CbcDecrypt(D, c, rest)
  {
    hide Xor;
    assert (c + rest)[..16] == c && (c + rest)[16..] == rest;
  }

  lemma CbcDecryptNothing(D: Cipher, iv: Block)
    ensures CbcDecrypt(D, iv, []) == [] && NextIv(iv, []) == iv
  {}

  lemma {:induction false} CbcDecryptAppends(D: Cipher, iv: Block, a: seq<Byte>, b: seq<Byte>)
    requires |a| % 16 == 0 && |b| % 16 == 0
    ensures CbcDecrypt(D, iv, a + b) == CbcDecrypt(D, iv, a) + CbcDecrypt(D, NextIv(iv, a), b)
    decreases |a|
  {
    hide Xor, CbcDecrypt, NextIv;
    if a == [] {
      CbcDecryptNothing(D, iv);
      assert a + b == b && [] + CbcDecrypt(D, iv, b) == CbcDecrypt(D, iv, b);
    } else {
      var c, rest := a[..16], a[16..];
      SplitAt(a, 16);
      Reassociate(c, rest, b);
      CbcDecryptAppends(D, c, rest, b);
      CbcDecryptUnfolds(D, iv, c, rest);
      CbcDecryptUnfolds(D, iv, c, rest + b);
      NextIvAppends(iv, c, rest);
      Reassociate(Xor(D(c), iv), CbcDecrypt(D, c, rest), CbcDecrypt(D, NextIv(c, rest), b));
    }
  }

  lemma NextIvTwice(iv: Block, c: seq<Byte>, d: seq<Byte>)
    requires |c| % 16 == 0 && |d| % 16 == 0
    ensures NextIv(iv, c + d) == NextIv(NextIv(iv, c), d)
  {
    if d == [] {
      assert c + d == c;
    }
  }

  /** Two calls, the second with the IV the first leaves, do what one call does. */
  lemma CbcAppends(f: Cipher, mode: Mode, iv: Block, a: seq<Byte>, b: seq<Byte>)
    requires |a| % 16 == 0 && |b| % 16 == 0
    ensures Cbc(f, mode, iv, a + b) == Cbc(f, mode, iv, a) + Cbc(f, mode, CbcIv(f, mode, iv, a), b)
    ensures CbcIv(f, mode, iv, a + b) == CbcIv(f, mode, CbcIv(f, mode, iv, a), b)
  {
    hide CbcEncrypt, CbcDecrypt, NextIv;
    if mode == Encrypt {
      CbcEncryptAppends(f, iv, a, b);
      var c := CbcEncrypt(f, iv, a);
      NextIvTwice(iv, c, CbcEncrypt(f, NextIv(iv, c), b));
    } else {
      CbcDecryptAppends(f, iv, a, b);
      NextIvTwice(iv, a, b);
    }
  }

  /** CBC decryption undoes CBC encryption when D undoes E. */
  lemma {:induction false} CbcUndone(E: Cipher, D: Cipher, iv: Block, p: seq<Byte>)
    requires |p| % 16 == 0
    requires forall b: Block :: D(E(b)) == b
    ensures CbcDecrypt(D, iv, CbcEncrypt(E, iv, p)) == p
    decreases |p|
  {
    hide Xor;
    if p != [] {
      var x := Xor(p[..16], iv);
      var c := E(x);
      var all := CbcEncrypt(E, iv, p);
      assert all[..16] == c && all[16..] == CbcEncrypt(E, c, p[16..]);
      CbcUndone(E, D, c, p[16..]);
      XorTwice(p[..16], iv);
      assert D(E(x)) == x;
    }
  }

  /** mbedtls_aes_crypt_cbc: f is the block operation of the chosen direction. */
  method CryptCbc(f: Cipher, mode: Mode, iv: array<Byte>, input: seq<Byte>) returns (ret: int, output: seq<Byte>)
    requires iv.Length == 16
    modifies iv
    ensures ret == if |input| % 16 == 0 then 0 else INVALID_INPUT_LENGTH
    ensures ret == 0 ==> output == Cbc(f, mode, old(iv[..]), input) && iv[..] == CbcIv(f, mode, old(iv[..]), input)
    ensures ret != 0 ==> iv[..] == old(iv[..])
  {
    hide Cbc, CbcIv;
    if |input| % 16 != 0 {
      return INVALID_INPUT_LENGTH, [];
    }
    ghost var iv0 := iv[..];
    output := [];
    CbcNone(f, mode, iv0);
    var k := 0;
    while k < |input|
      invariant k <= |input| && k % 16 == 0
      invariant output == Cbc(f, mode, iv0, input[..k])
      invariant iv[..] == CbcIv(f, mode, iv0, input[..k])
    {
      var block := input[k..k + 16];
      assert input[..k + 16] == input[..k] + block;
      CbcAppends(f, mode, iv0, input[..k], block);
      CbcOne(f, mode, iv[..], block);
      if mode == Decrypt {
        output := output + Xor(f(block), iv[..]);
        Put(iv, block);
      } else {
        var out := f(Xor(block, iv[..]));
        output := output + out;
        Put(iv, out);
      }
      k := k + 16;
    }
    assert input[..k] == input;
    return 0, output;
  }

  lemma CbcNone(f: Cipher, mode: Mode, iv: Block)
    ensures Cbc(f, mode, iv, []) == []
    ensures CbcIv(f, mode, iv, []) == iv
  {}

  lemma CbcOne(f: Cipher, mode: Mode, iv: Block, b: Block)
    ensures Cbc(f, mode, iv, b) == if mode == Encrypt then f(Xor(b, iv)) else Xor(f(b), iv)
    ensures CbcIv(f, mode, iv, b) == if mode == Encrypt then f(Xor(b, iv)) else b
  {
    hide Xor;
    assert b[..16] == b && b[16..] == [];
    var c := f(Xor(b, iv));
    assert CbcEncrypt(f, c, []) == [] && c + [] == c && c[0..] == c;
    assert CbcDecrypt(f, b, []) == [] && Xor(f(b), iv) + [] == Xor(f(b), iv) && b[0..] == b;
  }

  // ---------- Byte-wise machines ----------

  type Step<!S> = (S, Byte) -> (S, Byte)

  function FinalState<S>(step: Step<S>, s: S, input: seq<Byte>): S
    decreases |input|
  {
    if input == [] then s else FinalState(step, step(s, input[0]).0, input[1..])
  }

  function Outputs<S>(step: Step<S>, s: S, input: seq<Byte>): (r: seq<Byte>)
    ensures |r| == |input|
    decreases |input|
  {
    if input == [] then [] else [step(s, input[0]).1] + Outputs(step, step(s, input[0]).0, input[1..])
  }

  /** Processing a and then b from the state a leaves is processing a followed by b. */
  lemma {:induction false} Resumes<S>(step: Step<S>, s: S, a: seq<Byte>, b: seq<Byte>)
    ensures Outputs(step, s, a + b) == Outputs(step, s, a) + Outputs(step, FinalState(step, s, a), b)
    ensures FinalState(step, s, a + b) == FinalState(step, FinalState(step, s, a), b)
    decreases |a|
  {
    if a == [] {
      assert a + b == b;
    } else {
      assert (a + b)[0] == a[0] && (a + b)[1..] == a[1..] + b;
      Resumes(step, step(s, a[0]).0, a[1..], b);
    }
  }

  /** The machine `back` recovers each byte that `step` changed and goes through the same states. */
  ghost predicate Undoes<S(!new)>(step: Step<S>, back: Step<S>) {
    forall s, b :: Recovers(step, back, s, b)
  }

  ghost predicate Recovers<S>(step: Step<S>, back: Step<S>, s: S, b: Byte) {
    back(s, step(s, b).1) == (step(s, b).0, b)
  }

  lemma {:induction false} RunUndone<S(!new)>(step: Step<S>, back: Step<S>, s: S, p: seq<Byte>)
    requires Undoes(step, back)
    ensures Outputs(back, s, Outputs(step, s, p)) == p
    ensures FinalState(back, s, Outputs(step, s, p)) == FinalState(step, s, p)
    decreases |p|
  {
    if p != [] {
      var c := Outputs(step, s, p);
      var s' := step(s, p[0]).0;
      assert c[0] == step(s, p[0]).1 && c[1..] == Outputs(step, s', p[1..]);
      var b: Byte := p[0];
      var r := step(s, b);
      assert Recovers(step, back, s, b);
      assert back(s, r.1).0 == r.0;
      RunUndone(step, back, s', p[1..]);
    }
  }

  lemma OneMore<S>(step: Step<S>, s: S, input: seq<Byte>, k: nat)
    requires k < |input|
    ensures var s' := FinalState(step, s, input[..k]);
            && Outputs(step, s, input[..k + 1]) == Outputs(step, s, input[..k]) + [step(s', input[k]).1]
            && FinalState(step, s, input[..k + 1]) == step(s', input[k]).0
  {
    var s' := FinalState(step, s, input[..k]);
    var last := [input[k]];
    assert input[..k + 1] == input[..k] + last && last[1..] == [];
    Resumes(step, s, input[..k], last);
    var s'' := step(s', input[k]).0;
    assert Outputs(step, s'', []) == [] && FinalState(step, s'', []) == s'';
    assert Outputs(step, s', last) == [step(s', input[k]).1] + Outputs(step, s'', last[1..]);
  }

  type Offset = n: nat | n < 16

  function Next(n: Offset): Offset { (n + 1) % 16 }

  // ---------- CFB128 ----------

  datatype CfbState = CfbState(iv: Block, n: Offset)

  /** The register before the byte is used: encrypted afresh at a block boundary. */
  function CfbRegister(E: Cipher, s: CfbState): Block { if s.n == 0 then E(s.iv) else s.iv }

  function CfbStep(E: Cipher, mode: Mode, s: CfbState, b: Byte): (CfbState, Byte) {
    var iv := CfbRegister(E, s);
    var out := XorByte(iv[s.n], b);
    (CfbState(iv[s.n := if mode == Encrypt then out else b], Next(s.n)), out)
  }

  function Cfb(E: Cipher, mode: Mode): Step<CfbState> { (s, b) => CfbStep(E, mode, s, b) }

  /** CFB128 decryption undoes encryption, whatever the block function and wherever the calls are cut. */
  lemma CfbUndone(E: Cipher, s: CfbState, p: seq<Byte>)
    ensures Outputs(Cfb(E, Decrypt), s, Outputs(Cfb(E, Encrypt), s, p)) == p
    ensures FinalState(Cfb(E, Decrypt), s, Outputs(Cfb(E, Encrypt), s, p)) == FinalState(Cfb(E, Encrypt), s, p)
  {
    forall s: CfbState, b: Byte
      ensures Recovers(Cfb(E, Encrypt), Cfb(E, Decrypt), s, b)
    {
      XorByteTwice(b, CfbRegister(E, s)[s.n]);
    }
    RunUndone(Cfb(E, Encrypt), Cfb(E, Decrypt), s, p);
  }

  /** mbedtls_aes_crypt_cfb128 */
  method CryptCfb128(E: Cipher, mode: Mode, ivOff: Offset, iv: array<Byte>, input: seq<Byte>)
    returns (n: Offset, output: seq<Byte>)
    requires iv.Length == 16
    modifies iv
    ensures output == Outputs(Cfb(E, mode), old(CfbState(iv[..], ivOff)), input)
    ensures CfbState(iv[..], n) == FinalState(Cfb(E, mode), old(CfbState(iv[..], ivOff)), input)
  {
    ghost var s := CfbState(iv[..], ivOff);
    n, output := ivOff, [];
    var k := 0;
    while k < |input|
      invariant k <= |input|
      invariant output == Outputs(Cfb(E, mode), s, input[..k])
      invariant CfbState(iv[..], n) == FinalState(Cfb(E, mode), s, input[..k])
    {
      OneMore(Cfb(E, mode), s, input, k);
      var out := CfbByte(E, mode, iv, n, input[k]);
      output := output + [out];
      n := Next(n);
      k := k + 1;
    }
    assert input[..k] == input;
  }

  /** One round of the CFB128 loops. */
  method CfbByte(E: Cipher, mode: Mode, iv: array<Byte>, n: Offset, c: Byte) returns (out: Byte)
    requires iv.Length == 16
    modifies iv
    ensures (CfbState(iv[..], Next(n)), out) == CfbStep(E, mode, old(CfbState(iv[..], n)), c)
  {
    if n == 0 {
      Put(iv, E(iv[..]));
    }
    assert iv[..] == CfbRegister(E, old(CfbState(iv[..], n)));
    out := XorByte(iv[..][n], c);
    Put(iv, iv[..][n := if mode == Encrypt then out else c]);
  }

  // ---------- CFB8 ----------

  datatype Cfb8State = Cfb8State(iv: Block)

  /** The register shifts by the ciphertext byte. */
  function Cfb8Step(E: Cipher, mode: Mode, s: Cfb8State, b: Byte): (Cfb8State, Byte) {
    var out := XorByte(E(s.iv)[0], b);
    (Cfb8State(s.iv[1..] + [if mode == Encrypt then out else b]), out)
  }

  function Cfb8(E: Cipher, mode: Mode): Step<Cfb8State> { (s, b) => Cfb8Step(E, mode, s, b) }

  lemma Cfb8Undone(E: Cipher, s: Cfb8State, p: seq<Byte>)
    ensures Outputs(Cfb8(E, Decrypt), s, Outputs(Cfb8(E, Encrypt), s, p)) == p
    ensures FinalState(Cfb8(E, Decrypt), s, Outputs(Cfb8(E, Encrypt), s, p)) == FinalState(Cfb8(E, Encrypt), s, p)
  {
    forall s: Cfb8State, b: Byte
      ensures Recovers(Cfb8(E, Encrypt), Cfb8(E, Decrypt), s, b)
    {
      XorByteTwice(b, E(s.iv)[0]);
    }
    RunUndone(Cfb8(E, Encrypt), Cfb8(E, Decrypt), s, p);
  }

  /** mbedtls_aes_crypt_cfb8 */
  method CryptCfb8(E: Cipher, mode: Mode, iv: array<Byte>, input: seq<Byte>) returns (output: seq<Byte>)
    requires iv.Length == 16
    modifies iv
    ensures output == Outputs(Cfb8(E, mode), old(Cfb8State(iv[..])), input)
    ensures Cfb8State(iv[..]) == FinalState(Cfb8(E, mode), old(Cfb8State(iv[..])), input)
  {
    ghost var s := Cfb8State(iv[..]);
    output := [];
    var k := 0;
    while k < |input|
      invariant k <= |input|
      invariant output == Outputs(Cfb8(E, mode), s, input[..k])
      invariant Cfb8State(iv[..]) == FinalState(Cfb8(E, mode), s, input[..k])
    {
      OneMore(Cfb8(E, mode), s, input, k);
      var c := Cfb8Byte(E, mode, iv, input[k]);
      output := output + [c];
      k := k + 1;
    }
    assert input[..k] == input;
  }

  /** One round of the CFB8 loop: ov is the old register with the ciphertext byte after it. */
  method Cfb8Byte(E: Cipher, mode: Mode, iv: array<Byte>, b: Byte) returns (c: Byte)
    requires iv.Length == 16
    modifies iv
    ensures (Cfb8State(iv[..]), c) == Cfb8Step(E, mode, old(Cfb8State(iv[..])), b)
  {
    ghost var iv0 := iv[..];
    var ov := iv[..];
    Put(iv, E(iv[..]));
    c := XorByte(iv[..][0], b);
    ov := ov + [if mode == Encrypt then c else b];
    assert ov[1..] == iv0[1..] + [if mode == Encrypt then c else b];
    Put(iv, ov[1..]);
  }

  // ---------- CTR ----------

  datatype CtrState = CtrState(nonce: Block, stream: Block, n: Offset)

  function CtrStep(E: Cipher, s: CtrState, b: Byte): (CtrState, Byte) {
    var t := if s.n == 0 then CtrState(Succ(s.nonce), E(s.nonce), s.n) else s;
    (t.(n := Next(s.n)), XorByte(b, t.stream[s.n]))
  }

  function Ctr(E: Cipher): Step<CtrState> { (s, b) => CtrStep(E, s, b) }

  /** CTR is its own inverse. */
  lemma CtrUndone(E: Cipher, s: CtrState, p: seq<Byte>)
    ensures Outputs(Ctr(E), s, Outputs(Ctr(E), s, p)) == p
    ensures FinalState(Ctr(E), s, Outputs(Ctr(E), s, p)) == FinalState(Ctr(E), s, p)
  {
    hide Succ;
    forall s: CtrState, b: Byte ensures Recovers(Ctr(E), Ctr(E), s, b) {
      XorByteTwice(b, (if s.n == 0 then E(s.nonce) else s.stream)[s.n]);
    }
    RunUndone(Ctr(E), Ctr(E), s, p);
  }

  /** mbedtls_aes_crypt_ctr */
  method CryptCtr(E: Cipher, ncOff: Offset, nonceCounter: array<Byte>, streamBlock: array<Byte>, input: seq<Byte>)
    returns (n: Offset, output: seq<Byte>)
    requires nonceCounter.Length == streamBlock.Length == 16 && nonceCounter != streamBlock
    modifies nonceCounter, streamBlock
    ensures output == Outputs(Ctr(E), old(CtrState(nonceCounter[..], streamBlock[..], ncOff)), input)
    ensures CtrState(nonceCounter[..], streamBlock[..], n) ==
            FinalState(Ctr(E), old(CtrState(nonceCounter[..], streamBlock[..], ncOff)), input)
  {
    hide Succ;
    ghost var s := CtrState(nonceCounter[..], streamBlock[..], ncOff);
    n, output := ncOff, [];
    var k := 0;
    while k < |input|
      invariant k <= |input|
      invariant output == Outputs(Ctr(E), s, input[..k])
      invariant CtrState(nonceCounter[..], streamBlock[..], n) == FinalState(Ctr(E), s, input[..k])
    {
      OneMore(Ctr(E), s, input, k);
      if n == 0 {
        ghost var c := nonceCounter[..];
        Put(streamBlock, E(nonceCounter[..]));
        Increment(nonceCounter, 0);
        assert c[..0] + Succ(c[0..]) == Succ(c);
      }
      output := output + [XorByte(input[k], streamBlock[..][n])];
      n := Next(n);
      k := k + 1;
    }
    assert input[..k] == input;
  }

  // ---------- The byte-wise machines against the block-wise modes of NIST SP 800-38A ----------

  /** CFB with 128-bit segments: C_j = E(C_(j-1)) + P_j, the last segment possibly shorter. */
  function CfbBlocks(E: Cipher, iv: Block, p: seq<Byte>): (c: seq<Byte>)
    decreases |p|
  {
    if |p| <= 16 then Xor(E(iv)[..|p|], p)
    else
      var c := Xor(E(iv), p[..16]);
      c + CfbBlocks(E, c, p[16..])
  }

  /** CTR: P_j + E(T_j), each counter block the successor of the one before. */
  function CtrBlocks(E: Cipher, t: Block, p: seq<Byte>): (c: seq<Byte>)
    decreases |p|
  {
    if |p| <= 16 then Xor(p, E(t)[..|p|])
    else Xor(p[..16], E(t)) + CtrBlocks(E, Succ(t), p[16..])
  }

  function Wrap(n: nat): Offset
    requires n <= 16
  {
    n % 16
  }

  lemma XorFront(x: Byte, y: Byte, a: seq<Byte>, b: seq<Byte>)
    requires |a| == |b|
    ensures Xor([x] + a, [y] + b) == [XorByte(x, y)] + Xor(a, b)
  {}

  lemma Unfolds<S>(step: Step<S>, s: S, b: Byte, rest: seq<Byte>)
    ensures var s' := step(s, b).0;
            && Outputs(step, s, [b] + rest) == [step(s, b).1] + Outputs(step, s', rest)
            && FinalState(step, s, [b] + rest) == FinalState(step, s', rest)
  {
    assert ([b] + rest)[0] == b && ([b] + rest)[1..] == rest;
  }

  lemma Nothing<S>(step: Step<S>, s: S)
    ensures Outputs(step, s, []) == [] && FinalState(step, s, []) == s
  {}

  lemma CfbMoves(E: Cipher, iv: Block, n: Offset, b: Byte)
    ensures var r := if n == 0 then E(iv) else iv;
            Cfb(E, Encrypt)(CfbState(iv, n), b) ==
            (CfbState(r[n := XorByte(r[n], b)], Next(n)), XorByte(r[n], b))
  {}

  lemma CtrMoves(E: Cipher, t: Block, k: Block, n: Offset, b: Byte)
    ensures n == 0 ==> Ctr(E)(CtrState(t, k, n), b) == (CtrState(Succ(t), E(t), 1), XorByte(b, E(t)[0]))
    ensures n != 0 ==> Ctr(E)(CtrState(t, k, n), b) == (CtrState(t, k, Next(n)), XorByte(b, k[n]))
  {}

  /** s overwritten with c from n on. */
  function Spliced<T>(s: seq<T>, n: nat, c: seq<T>): (r: seq<T>)
    requires n + |c| <= |s|
    ensures |r| == |s|
  {
    s[..n] + c + s[n + |c|..]
  }

  lemma SplicedOne<T>(s: seq<T>, n: nat, x: T)
    requires n < |s|
    ensures Spliced(s, n, [x]) == s[n := x]
  {}

  lemma SplicedFirst<T>(s: seq<T>, n: nat, x: T, c: seq<T>)
    requires n + 1 + |c| <= |s|
    ensures Spliced(s[n := x], n + 1, c) == Spliced(s, n, [x] + c)
    ensures s[n := x][n + 1..n + 1 + |c|] == s[n + 1..n + 1 + |c|]
    ensures s[n..n + 1 + |c|] == [s[n]] + s[n + 1..n + 1 + |c|]
  {}

  lemma CfbOneByte(E: Cipher, s: CfbState, b: Byte)
    ensures var r := CfbRegister(E, s);
            var x := XorByte(r[s.n], b);
            && Outputs(Cfb(E, Encrypt), s, [b]) == [x]
            && FinalState(Cfb(E, Encrypt), s, [b]) == CfbState(r[s.n := x], Next(s.n))
  {
    hide XorByte, Outputs, FinalState, Cfb;
    var s' := Cfb(E, Encrypt)(s, b).0;
    CfbMoves(E, s.iv, s.n, b);
    Unfolds(Cfb(E, Encrypt), s, b, []);
    Nothing(Cfb(E, Encrypt), s');
    assert [b] + [] == [b];
  }

  /** The bytes are added to the register and kept in it. */
  ghost predicate KeptInRegister(E: Cipher, s: CfbState, p: seq<Byte>)
    requires s.n + |p| <= 16
  {
    var r := CfbRegister(E, s);
    var c := Xor(r[s.n..s.n + |p|], p);
    && Outputs(Cfb(E, Encrypt), s, p) == c
    && FinalState(Cfb(E, Encrypt), s, p) == CfbState(Spliced(r, s.n, c), Wrap(s.n + |p|))
  }

  lemma KeptOne(E: Cipher, s: CfbState, b: Byte)
    ensures KeptInRegister(E, s, [b])
  {
    hide Xor, XorByte, Outputs, FinalState, Cfb, Spliced;
    var r, n := CfbRegister(E, s), s.n;
    CfbOneByte(E, s, b);
    XorFront(r[n], b, [], []);
    XorNothing();
    TakeOne(r[n..n + 1]);
    assert r[n..n + 1] == [r[n]] == [r[n]] + [] && [b] + [] == [b];
    SplicedOne(r, n, XorByte(r[n], b));
  }

  lemma KeptMore(E: Cipher, s: CfbState, b: Byte, rest: seq<Byte>)
    requires rest != [] && s.n + 1 + |rest| <= 16
    requires var r := CfbRegister(E, s);
             KeptInRegister(E, CfbState(r[s.n := XorByte(r[s.n], b)], Next(s.n)), rest)
    ensures KeptInRegister(E, s, [b] + rest)
  {
    hide Xor, XorByte, Outputs, FinalState, Cfb, Spliced, Wrap;
    var r, n := CfbRegister(E, s), s.n;
    var x := XorByte(r[n], b);
    var s' := CfbState(r[n := x], Next(n));
    assert s'.n == n + 1 && CfbRegister(E, s') == r[n := x] && |[b] + rest| == 1 + |rest|;
    var tail := r[n + 1..n + 1 + |rest|];
    XorFront(r[n], b, tail, rest);
    SplicedFirst(r, n, x, Xor(tail, rest));
    CfbMoves(E, s.iv, n, b);
    Unfolds(Cfb(E, Encrypt), s, b, rest);
  }

  lemma {:induction false} CfbWithin(E: Cipher, s: CfbState, p: seq<Byte>)
    requires 0 < |p| && s.n + |p| <= 16
    ensures KeptInRegister(E, s, p)
    decreases |p|
  {
    hide KeptInRegister, XorByte;
    SplitAt(p, 1);
    TakeOne(p);
    if |p| == 1 {
      assert p == [p[0]];
      KeptOne(E, s, p[0]);
    } else {
      var r := CfbRegister(E, s);
      CfbWithin(E, CfbState(r[s.n := XorByte(r[s.n], p[0])], Next(s.n)), p[1..]);
      KeptMore(E, s, p[0], p[1..]);
    }
  }

  lemma XorNothing()
    ensures Xor([], []) == []
  {}

  lemma CfbFirst(E: Cipher, iv: Block, p: seq<Byte>)
    requires 0 < |p| <= 16
    ensures var c := Xor(E(iv)[..|p|], p);
            && Outputs(Cfb(E, Encrypt), CfbState(iv, 0), p) == c
            && FinalState(Cfb(E, Encrypt), CfbState(iv, 0), p) == CfbState(c + E(iv)[|p|..], Wrap(|p|))
  {
    hide Xor, XorByte, Outputs, FinalState, Cfb;
    CfbWithin(E, CfbState(iv, 0), p);
    var c := Xor(E(iv)[..|p|], p);
    assert E(iv)[..0] + c == c;
  }

  /** From a block boundary, CFB128 encryption is the block-wise mode. */
  lemma {:induction false} CfbIsBlockwise(E: Cipher, iv: Block, p: seq<Byte>)
    ensures Outputs(Cfb(E, Encrypt), CfbState(iv, 0), p) == CfbBlocks(E, iv, p)
    decreases |p|
  {
    hide Xor, XorByte;
    if p == [] {
      XorNothing();
      assert E(iv)[..0] == [];
    } else if |p| <= 16 {
      CfbFirst(E, iv, p);
    } else {
      var a, b := p[..16], p[16..];
      assert p == a + b;
      CfbFirst(E, iv, a);
      assert E(iv)[..16] == E(iv) && E(iv)[16..] == [];
      var c := Xor(E(iv), a);
      assert c + [] == c;
      Resumes(Cfb(E, Encrypt), CfbState(iv, 0), a, b);
      CfbIsBlockwise(E, c, b);
    }
  }

  lemma {:induction false} CtrWithin(E: Cipher, t: Block, k: Block, n: Offset, p: seq<Byte>)
    requires 0 < n && n + |p| <= 16
    ensures Outputs(Ctr(E), CtrState(t, k, n), p) == Xor(p, k[n..n + |p|])
    ensures FinalState(Ctr(E), CtrState(t, k, n), p) == CtrState(t, k, Wrap(n + |p|))
    decreases |p|
  {
    hide Xor, XorByte, Succ, Outputs, FinalState, Ctr;
    if p == [] {
      XorNothing();
      Nothing(Ctr(E), CtrState(t, k, n));
      assert k[n..n] == [];
    } else {
      assert k[n..n + |p|] == [k[n]] + k[n + 1..n + |p|] && p == [p[0]] + p[1..];
      CtrMoves(E, t, k, n, p[0]);
      Unfolds(Ctr(E), CtrState(t, k, n), p[0], p[1..]);
      XorFront(p[0], k[n], p[1..], k[n + 1..n + |p|]);
      if n + 1 < 16 {
        CtrWithin(E, t, k, n + 1, p[1..]);
      } else {
        XorNothing();
        Nothing(Ctr(E), CtrState(t, k, 0));
        assert p[1..] == [] && k[n + 1..n + |p|] == [];
      }
    }
  }

  lemma CtrFirst(E: Cipher, t: Block, k: Block, p: seq<Byte>)
    requires 0 < |p| <= 16
    ensures Outputs(Ctr(E), CtrState(t, k, 0), p) == Xor(p, E(t)[..|p|])
    ensures FinalState(Ctr(E), CtrState(t, k, 0), p) == CtrState(Succ(t), E(t), Wrap(|p|))
  {
    hide Xor, XorByte, Succ, Outputs, FinalState, Ctr;
    var r := E(t);
    assert r[..|p|] == [r[0]] + r[1..|p|] && p == [p[0]] + p[1..];
    CtrMoves(E, t, k, 0, p[0]);
    Unfolds(Ctr(E), CtrState(t, k, 0), p[0], p[1..]);
    XorFront(p[0], r[0], p[1..], r[1..|p|]);
    CtrWithin(E, Succ(t), r, 1, p[1..]);
  }

  /** From a block boundary, CTR is the block-wise mode, whatever the stream block held. */
  lemma {:induction false} CtrIsBlockwise(E: Cipher, t: Block, k: Block, p: seq<Byte>)
    ensures Outputs(Ctr(E), CtrState(t, k, 0), p) == CtrBlocks(E, t, p)
    decreases |p|
  {
    hide Xor, XorByte, Succ;
    if p == [] {
      XorNothing();
      assert E(t)[..0] == [];
    } else if |p| <= 16 {
      CtrFirst(E, t, k, p);
    } else {
      var a, b := p[..16], p[16..];
      assert p == a + b;
      CtrFirst(E, t, k, a);
      assert E(t)[..16] == E(t);
      Resumes(Ctr(E), CtrState(t, k, 0), a, b);
      CtrIsBlockwise(E, Succ(t), E(t), b);
    }
  }
}
