/**
 * src/aes/gcm.c: the GCM context, its multiplication tables and the calls that update it in
 * place. The block cipher is an arbitrary function on blocks.
 */
module Gcm {
  import opened Basics
  import opened BlockCipher
  import opened Bytes
  import opened Words
  import opened GhashField
  import opened GcmSpec
  import opened GcmStream
  import opened Counter
  import opened GcmLaws

  const OK := 0
  const AUTH_FAILED := -0x0012
  const BAD_INPUT := -0x0014

  /** Entry i of the table is i times h. */
  ghost predicate IsTable(t: seq<Elem>, h: Elem) {
    |t| == 16 && forall i :: 0 <= i < 16 ==> t[i] == Entry(i, h)
  }

  predicate PowerOfP(i: nat) { i == 0 || i == 1 || i == 2 || i == 4 || i == 8 }

  lemma HornerUnfolds(s: Block, i: nat, h: Elem)
    requires i < 16
    ensures Horner(s[i..], h) == HornerByte(s[i], Horner(s[i + 1..], h), h)
    ensures i == 15 ==> Horner(s[i + 1..], h) == ZERO
  {
    hide HornerByte;
    assert s[i..][1..] == s[i + 1..];
  }

  lemma MulIsHorner(s: Block, h: Block)
    ensures Mul(s, h) == Store(Horner(s, Load(h)))
  {
    hide Store, Horner, Product, Load;
    ProductIsHorner(s, Load(h));
  }

  lemma EntryHalves(i: nat, h: Elem)
    requires i == 4 || i == 2 || i == 1
    ensures Entry(i, h) == MulP(Entry(2 * i, h))
  {
    hide Entry, MulP;
    EntryPowers(h);
  }

  lemma PadWhole(b: Block)
    ensures PadBlock(b) == b
  {}

  lemma GhashNone(h: Block, y: Block)
    ensures Pad16([]) == []
    ensures Ghash(h, y, Pad16([])) == y
  {}

  /** The next piece of a string hashed so far up to a block boundary. */
  lemma GhashStep(h: Block, y: Block, s: seq<Byte>, k: nat, n: nat)
    requires k < |s| && k % 16 == 0 && n == Min(|s| - k, 16)
    ensures k < k + n <= |s| && ((k + n) % 16 == 0 || k + n == |s|)
    ensures Ghash(h, y, Pad16(s[..k + n])) == Mul(Xor(Ghash(h, y, Pad16(s[..k])), PadBlock(s[k..k + n])), h)
  {
    hide Ghash, Mul, Xor, Pad16, PadBlock;
    var a, b := s[..k], s[k..k + n];
    assert s[..k + n] == a + b;
    Pad16Appends(a, b);
    Pad16Short(b);
    GhashAppends(h, y, a, Pad16(b));
    GhashOne(h, Ghash(h, y, a), PadBlock(b));
  }

  lemma Inc32IsSucc(b: Block)
    ensures Inc32(b) == b[..12] + Succ(b[12..])
  {
    hide Value, BigEndian, Succ;
    SuccIsBigEndian(b[12..]);
    assert Pow256(4) == TWO32;
  }

  lemma CipherTextCases(E: Cipher, s: Stream, p: seq<Byte>)
    ensures CipherText(E, s, p) == if s.mode == Encrypt then Output(E, s, p) else p
  {}

  lemma UpdateStep(E: Cipher, s: Stream, input: seq<Byte>, k: nat, n: nat, len: nat)
    requires k < |input| && k % 16 == 0 && n == Min(|input| - k, 16)
    ensures var s' := Updated(E, s, input[..k]).(len := len);
            && Updated(E, s, input[..k + n]).(len := len) == Updated(E, s', input[k..k + n]).(len := len)
            && Output(E, s, input[..k + n]) == Output(E, s, input[..k]) + Output(E, s', input[k..k + n])
  {
    hide Ghash, Gctr, Inc32, IncBy, HashKey, Pad16;
    var a, b := input[..k], input[k..k + n];
    assert input[..k + n] == a + b;
    UpdatedAppends(E, s, a, b);
  }

  /** The same step on memory: the input still to be read has not been written to. */
  lemma UpdateStepInMemory(E: Cipher, s: Stream, m: seq<Byte>, src: nat, dst: nat, n: nat, k: nat, j: nat, len: nat)
    requires src + n <= |m| && dst + n <= |m| && (dst <= src || src + n <= dst)
    requires k < n && k % 16 == 0 && j == Min(n - k, 16)
    ensures var input := m[src..src + n];
            var s' := Updated(E, s, input[..k]).(len := len);
            var m' := Replaced(m, dst, Output(E, s, input[..k]));
            && m'[src + k..src + k + j] == input[k..k + j]
            && Replaced(m', dst + k, Output(E, s', input[k..k + j])) == Replaced(m, dst, Output(E, s, input[..k + j]))
            && Updated(E, s, input[..k + j]).(len := len) == Updated(E, s', input[k..k + j]).(len := len)
  {
    hide Output, Updated, Replaced;
    var input := m[src..src + n];
    UpdateStep(E, s, input, k, j, len);
    var done := Output(E, s, input[..k]);
    ReplacedElsewhere(m, dst, done, src + k, src + k + j);
    SliceOf(m, src, n, k, k + j);
    ReplacedMore(m, dst, done, Output(E, Updated(E, s, input[..k]).(len := len), input[k..k + j]));
  }

  lemma LengthOfUpdated(E: Cipher, s: Stream, input: seq<Byte>)
    ensures Updated(E, s, input).len == s.len + |input|
  {}

  lemma XorPrefix(a: Block, b: Block, n: nat)
    requires n <= 16
    ensures Xor(a, b)[..n] == Xor(a[..n], b[..n])
  {}

  /** The tag from its parts; with no data at all it is the encrypted counter block. */
  lemma FinishedPrefix(E: Cipher, s: Stream, n: nat)
    requires n <= 16
    ensures Finished(E, s, n) == Xor(Mul(Xor(s.buf, LengthBlock(s.addLen, s.len)), HashKey(E))[..n], s.base[..n])
    ensures s.len == 0 && s.addLen == 0 && s.buf == Zeros(16) ==> Finished(E, s, n) == s.base[..n]
  {
    hide Mul, HashKey, Xor, LengthBlock;
    XorPrefix(Mul(Xor(s.buf, LengthBlock(s.addLen, s.len)), HashKey(E)), s.base, n);
    if s.len == 0 && s.addLen == 0 && s.buf == Zeros(16) {
      NoLength();
      MulZero(HashKey(E));
      XorZeros(s.base);
      XorZeros(Zeros(16));
    }
  }

  lemma NoLength()
    ensures LengthBlock(0, 0) == Zeros(16)
  {
    hide BigEndian;
    ZeroBytes(8);
    assert Zeros(8) + Zeros(8) == Zeros(16);
  }

  lemma {:induction false} ZeroBytes(k: nat)
    ensures BigEndian(0, k) == Zeros(k)
  {
    assert ByteOf(0) == 0;
    if k > 0 {
      ZeroBytes(k - 1);
    }
  }

  lemma XorZeros(b: Block)
    ensures Xor(Zeros(16), b) == b
  {}

  lemma XorPadded(a: Block, s: seq<Byte>)
    requires |s| <= 16
    ensures Xor(a, PadBlock(s)) == Xor(a[..|s|], s) + a[|s|..]
  {}

  /** Adds a string of at most a block into the buffer, byte by byte. */
  method XorInto(a: array<Byte>, s: seq<Byte>)
    requires a.Length == 16 && |s| <= 16
    modifies a
    ensures a[..] == Xor(old(a[..]), PadBlock(s))
  {
    ghost var b := a[..];
    XorPadded(b, s);
    var i := 0;
    while i < |s|
      invariant i <= |s|
      invariant forall k :: 0 <= k < i ==> a[k] == XorByte(b[k], s[k])
      invariant forall k :: i <= k < 16 ==> a[k] == b[k]
    {
      a[i] := XorByte(a[i], s[i]);
      i := i + 1;
    }
    assert a[..] == Xor(b[..|s|], s) + b[|s|..];
  }

  /** The memory with some bytes replaced from a place on. */
  function Replaced<T>(m: seq<T>, at: nat, bytes: seq<T>): seq<T>
    requires at + |bytes| <= |m|
  {
    m[..at] + bytes + m[at + |bytes|..]
  }

  lemma ReplacedNothing<T>(m: seq<T>, at: nat)
    requires at <= |m|
    ensures Replaced(m, at, []) == m
  {}

  lemma ReplacedMore<T>(m: seq<T>, at: nat, a: seq<T>, b: seq<T>)
    requires at + |a| + |b| <= |m|
    ensures Replaced(Replaced(m, at, a), at + |a|, b) == Replaced(m, at, a + b)
  {}

  lemma ReplacedAgain<T>(m: seq<T>, at: nat, a: seq<T>, b: seq<T>)
    requires at + |a| <= |m| && |a| == |b|
    ensures Replaced(m, at, a)[at..at + |a|] == a
    ensures Replaced(Replaced(m, at, a), at, b) == Replaced(m, at, b)
  {}

  lemma ReplacedElsewhere<T>(m: seq<T>, at: nat, bytes: seq<T>, lo: nat, hi: nat)
    requires at + |bytes| <= |m| && lo <= hi <= |m|
    requires hi <= at || at + |bytes| <= lo
    ensures Replaced(m, at, bytes)[lo..hi] == m[lo..hi]
  {}

  lemma ReplacedOne<T>(m: seq<T>, at: nat, a: seq<T>, i: nat)
    requires i < |a| && at + |a| <= |m|
    ensures Replaced(m, at, a[..i])[at + i := a[i]] == Replaced(m, at, a[..i + 1])
  {
    assert a[..i + 1] == a[..i] + [a[i]];
    assert m[at + i..] == [m[at + i]] + m[at + i + 1..];
  }

  lemma SliceOf<T>(m: seq<T>, at: nat, n: nat, i: nat, j: nat)
    requires at + n <= |m| && i <= j <= n
    ensures m[at..at + n][i..j] == m[at + i..at + j]
  {
    var a, b := m[at..at + n][i..j], m[at + i..at + j];
    forall k | 0 <= k < j - i ensures a[k] == b[k] {
      assert a[k] == m[at..at + n][i + k] == m[at + i + k];
    }
  }

  /** One byte of an update: read, masked and written; its ciphertext side goes into the hash buffer. */
  method MaskByte(mem: array<Byte>, src: nat, dst: nat, m: Byte, buf: array<Byte>, i: nat, mode: Mode)
    requires mem != buf && src < mem.Length && dst < mem.Length && i < buf.Length
    modifies mem, buf
    ensures var x := old(mem[..])[src];
            && mem[..] == old(mem[..])[dst := XorByte(x, m)]
            && buf[..] == old(buf[..])[i := XorByte(old(buf[..])[i], if mode == Encrypt then XorByte(x, m) else x)]
  {
    hide XorByte;
    var x := mem[src];
    if mode == Decrypt {
      buf[i] := XorByte(buf[i], x);
    }
    mem[dst] := XorByte(x, m);
    if mode == Encrypt {
      buf[i] := XorByte(buf[i], XorByte(x, m));
    }
  }

  /** The memory, and the hash buffer, when i bytes have been masked. */
  function MaskedMemory(m: seq<Byte>, src: nat, dst: nat, mask: seq<Byte>, i: nat): (r: seq<Byte>)
    requires src + |mask| <= |m| && dst + |mask| <= |m| && i <= |mask|
    ensures |r| == |m|
  {
    Replaced(m, dst, Xor(m[src..src + |mask|], mask)[..i])
  }

  function CipherSide(mode: Mode, p: seq<Byte>, mask: seq<Byte>): (c: seq<Byte>)
    requires |p| == |mask|
    ensures |c| == |p|
  {
    if mode == Encrypt then Xor(p, mask) else p
  }

  function MaskedBuffer(b: Block, mode: Mode, p: seq<Byte>, mask: seq<Byte>, i: nat): (r: Block)
    requires |p| == |mask| <= 16 && i <= |mask|
  {
    Replaced(b, 0, Xor(b[..|mask|], CipherSide(mode, p, mask))[..i])
  }

  lemma MemoryStep(m: seq<Byte>, src: nat, dst: nat, mask: seq<Byte>, i: nat)
    requires src + |mask| <= |m| && dst + |mask| <= |m| && i < |mask|
    requires dst <= src || src + |mask| <= dst
    ensures var x := m[src..src + |mask|][i];
            && MaskedMemory(m, src, dst, mask, i)[src + i] == x
            && MaskedMemory(m, src, dst, mask, i)[dst + i := XorByte(x, mask[i])]
               == MaskedMemory(m, src, dst, mask, i + 1)
  {
    hide XorByte, Xor, Replaced;
    var p := m[src..src + |mask|];
    ReplacedElsewhere(m, dst, Xor(p, mask)[..i], src + i, src + i + 1);
    SliceHead(MaskedMemory(m, src, dst, mask, i), src + i);
    SliceHead(m, src + i);
    XorAt(p, mask, i);
    ReplacedOne(m, dst, Xor(p, mask), i);
  }

  lemma BufferStep(b: Block, mode: Mode, p: seq<Byte>, mask: seq<Byte>, i: nat)
    requires |p| == |mask| <= 16 && i < |mask|
    ensures var f := MaskedBuffer(b, mode, p, mask, i);
            var c := if mode == Encrypt then XorByte(p[i], mask[i]) else p[i];
            f[i := XorByte(f[i], c)] == MaskedBuffer(b, mode, p, mask, i + 1)
  {
    hide XorByte, Xor, Replaced;
    var c, n := CipherSide(mode, p, mask), |mask|;
    var h := Xor(b[..n], c);
    ReplacedElsewhere(b, 0, h[..i], i, i + 1);
    SliceHead(MaskedBuffer(b, mode, p, mask, i), i);
    SliceHead(b, i);
    XorAt(p, mask, i);
    XorAt(b[..n], c, i);
    ReplacedOne(b, 0, h, i);
  }

  lemma MaskedNone(m: seq<Byte>, src: nat, dst: nat, mask: seq<Byte>, b: Block, mode: Mode)
    requires src + |mask| <= |m| && dst + |mask| <= |m| && |mask| <= 16
    ensures MaskedMemory(m, src, dst, mask, 0) == m
    ensures MaskedBuffer(b, mode, m[src..src + |mask|], mask, 0) == b
  {
    hide Xor, Replaced;
    ReplacedNothing(m, dst);
    ReplacedNothing(b, 0);
  }

  lemma MaskedAll(m: seq<Byte>, src: nat, dst: nat, mask: seq<Byte>, b: Block, mode: Mode)
    requires src + |mask| <= |m| && dst + |mask| <= |m| && |mask| <= 16
    ensures var p := m[src..src + |mask|];
            && MaskedMemory(m, src, dst, mask, |mask|) == Replaced(m, dst, Xor(p, mask))
            && MaskedBuffer(b, mode, p, mask, |mask|) == Xor(b, PadBlock(CipherSide(mode, p, mask)))
  {
    hide Xor, PadBlock;
    var p, n := m[src..src + |mask|], |mask|;
    var c := CipherSide(mode, p, mask);
    XorPadded(b, c);
    assert Xor(p, mask)[..n] == Xor(p, mask) && Xor(b[..n], c)[..n] == Xor(b[..n], c);
  }

  lemma UpdatedRound(E: Cipher, s: Stream, p: seq<Byte>)
    requires 0 < |p| <= 16
    ensures var mask := E(Inc32(s.y))[..|p|];
            && Output(E, s, p) == Xor(p, mask)
            && Updated(E, s, p) == s.(y := Inc32(s.y), len := s.len + |p|,
                                      buf := Mul(Xor(s.buf, PadBlock(CipherSide(s.mode, p, mask))), HashKey(E)))
  {
    hide Mul, Xor, HashKey, PadBlock, Inc32, Output, Updated;
    UpdatedShort(E, s, p);
    CipherTextCases(E, s, p);
  }

  /** The byte loop of an update: each byte is written before the next one is read. */
  method MaskBytes(mem: array<Byte>, src: nat, dst: nat, mask: seq<Byte>, buf: array<Byte>, mode: Mode)
    requires buf.Length == 16 && mem != buf && |mask| <= 16
    requires src + |mask| <= mem.Length && dst + |mask| <= mem.Length
    requires dst <= src || src + |mask| <= dst
    modifies mem, buf
    ensures var p := old(mem[src..src + |mask|]);
            && mem[..] == Replaced(old(mem[..]), dst, Xor(p, mask))
            && buf[..] == Xor(old(buf[..]), PadBlock(CipherSide(mode, p, mask)))
  {
    hide MaskedMemory, MaskedBuffer, XorByte, Xor, PadBlock, CipherSide, Replaced;
    var i, n := 0, |mask|;
    ghost var m0, b := mem[..], buf[..];
    ghost var p := m0[src..src + n];
    MaskedNone(m0, src, dst, mask, b, mode);
    while i < n
      invariant 0 <= i <= n
      invariant mem[..] == MaskedMemory(m0, src, dst, mask, i)
      invariant buf[..] == MaskedBuffer(b, mode, p, mask, i)
    {
      MemoryStep(m0, src, dst, mask, i);
      BufferStep(b, mode, p, mask, i);
      MaskByte(mem, src + i, dst + i, mask[i], buf, i, mode);
      i := i + 1;
    }
    MaskedAll(m0, src, dst, mask, b, mode);
  }

  lemma SliceHead<T>(m: seq<T>, i: nat)
    requires i < |m|
    ensures m[i..i + 1] == [m[i]]
  {}

  lemma XorAt(a: seq<Byte>, b: seq<Byte>, i: nat)
    requires |a| == |b| && i < |a|
    ensures Xor(a, b)[i] == XorByte(a[i], b[i])
  {}

  /** The argument checks of the first two calls: past them the output has been written. */
  predicate Fits(iv: seq<Byte>, add: seq<Byte>, input: seq<Byte>) {
    |iv| < TWO61 && |add| < TWO61 && |input| <= MAX_LENGTH
  }

  /** The argument checks of the three calls together. */
  predicate Accepted(iv: seq<Byte>, add: seq<Byte>, input: seq<Byte>, tagLen: nat) {
    Fits(iv, add, input) && 4 <= tagLen <= 16
  }

  /**
   * What decryption returns and leaves in the output buffer, nothing written being the empty string.
   * The tag length is only looked at after the output has been written, and that error does not clear it.
   */
  function Decrypted(E: Cipher, iv: seq<Byte>, add: seq<Byte>, tag: seq<Byte>, input: seq<Byte>): (r: (int, seq<Byte>))
    ensures r.1 == [] || |r.1| == |input|
  {
    hide Started, Output, Updated, Finished;
    var s := Started(E, Decrypt, iv, add);
    if !Fits(iv, add, input) then (BAD_INPUT, [])
    else if |tag| < 4 || |tag| > 16 then (BAD_INPUT, Output(E, s, input))
    else if tag == Finished(E, Updated(E, s, input), |tag|) then (OK, Output(E, s, input))
    else (AUTH_FAILED, Zeros(|input|))
  }

  /** The output does not start inside the input after its first byte. */
  predicate Apart(src: nat, dst: nat, length: nat) { dst <= src || dst - src >= length }

  /** An error gave no byte away. */
  predicate Withheld(result: (int, seq<Byte>), n: nat) {
    result.0 == OK || result.1 == [] || result.1 == Zeros(n)
  }

  /**
   * Under every block cipher a failing decryption leaves nothing but zeros behind, exactly when the
   * tag length is one that is allowed, or the arguments are refused before that, or there is no input.
   */
  lemma FailureWithholdsExactly(iv: seq<Byte>, add: seq<Byte>, tag: seq<Byte>, input: seq<Byte>)
    ensures (forall E | Injective(E) :: Withheld(Decrypted(E, iv, add, tag, input), |input|))
            <==> 4 <= |tag| <= 16 || !Fits(iv, add, input) || input == []
  {
    hide Started, Output, Updated, Finished, Injective;
    if !(4 <= |tag| <= 16) && Fits(iv, add, input) && input != [] {
      var E := RevealingCipher(iv, add, input);
      assert Decrypted(E, iv, add, tag, input).1 == Output(E, Started(E, Decrypt, iv, add), input);
      assert !Withheld(Decrypted(E, iv, add, tag, input), |input|);
    }
  }

  /** Two blocks exchanged, all others left alone. */
  function Exchange(a: Block, b: Block): Cipher {
    (z: Block) => if z == a then b else if z == b then a else z
  }

  lemma ExchangeInjective(a: Block, b: Block)
    ensures Injective(Exchange(a, b))
  {}

  lemma SameKeySameCounter(E: Cipher, F: Cipher, iv: seq<Byte>)
    requires HashKey(E) == HashKey(F)
    ensures StartCounter(E, iv) == StartCounter(F, iv)
  {}

  /** With hash key zero the counter of the first data block is never the zero block. */
  lemma FirstCounter(E: Cipher, iv: seq<Byte>)
    requires HashKey(E) == Zeros(16)
    ensures Value(Inc32(StartCounter(E, iv))[12..]) != 0
  {
    hide Mul, Ghash, Xor, Value, Inc32, IvLength32, Pad16, BigEndian;
    var j0 := StartCounter(E, iv);
    Inc32Counts(j0);
    if |iv| == 12 {
      assert j0[12..] == [0, 0, 0, 1];
      ValueOfOne();
    } else {
      CountersUnfold(E, iv);
      MulByZero(Xor(Ghash(HashKey(E), Zeros(16), Pad16(iv)), IvLength32(|iv|)));
      assert j0[12..] == Zeros(4);
      ZeroValue(4);
    }
  }

  lemma ValueOfOne()
    ensures Value([0, 0, 0, 1]) == 1
  {
    ZeroValue(3);
    assert [0, 0, 0, 1][..3] == Zeros(3);
  }

  lemma OtherByte(b: Byte)
    ensures b ^ 1 != b && XorByte(b, b ^ 1) == 1
  {}

  lemma RevealingCipher(iv: seq<Byte>, add: seq<Byte>, input: seq<Byte>) returns (E: Cipher)
    requires input != []
    ensures Injective(E)
    ensures var out := Output(E, Started(E, Decrypt, iv, add), input); out != [] && out != Zeros(|input|)
  {
    hide StartCounter, Inc32, Value, Injective, Gctr, XorByte;
    var id: Cipher := (z: Block) => z;
    var x := Inc32(StartCounter(id, iv));
    var y: Block := [input[0] ^ 1] + x[1..];
    FirstCounter(id, iv);
    ZeroValue(4);
    assert x[12..] == y[12..] && Zeros(16)[12..] == Zeros(4);
    E := Exchange(x, y);
    ExchangeInjective(x, y);
    SameKeySameCounter(E, id, iv);
    KeystreamAt(E, x, input, 0);
    StartOfCount(x);
    OtherByte(input[0]);
    assert E(x)[0] == input[0] ^ 1;
  }

  lemma StartedLengths(E: Cipher, mode: Mode, iv: seq<Byte>, add: seq<Byte>)
    ensures Started(E, mode, iv, add).len == 0
  {}

  lemma SealedInOneUpdate(E: Cipher, iv: seq<Byte>, add: seq<Byte>, input: seq<Byte>, t: nat)
    ensures t <= 16 && |iv| < TWO29 ==>
              var s := Started(E, Encrypt, iv, add);
              (Output(E, s, input), Finished(E, Updated(E, s, input), t)) == Seal(E, iv, input, add, t)
  {
    hide Gctr, Ghash, FullTag, StartCounter, PreCounter, Updated, Finished, Inc32;
    if t <= 16 && |iv| < TWO29 {
      StartCounterIsPreCounter(E, iv);
      StreamComputesTag(E, Encrypt, iv, add, input, t);
    }
  }

  lemma OpenedInOneUpdate(E: Cipher, iv: seq<Byte>, add: seq<Byte>, input: seq<Byte>, tag: seq<Byte>)
    requires |tag| <= 16
    ensures |iv| < TWO29 ==>
              var s := Started(E, Decrypt, iv, add);
              Open(E, iv, input, add, tag) ==
              if tag == Finished(E, Updated(E, s, input), |tag|) then Plaintext(Output(E, s, input)) else Fail
  {
    hide Gctr, Ghash, FullTag, StartCounter, PreCounter, Updated, Finished, Inc32;
    if |iv| < TWO29 {
      StartCounterIsPreCounter(E, iv);
      StreamComputesTag(E, Decrypt, iv, add, input, |tag|);
    }
  }

  lemma OrIsZero(d: Byte, a: Byte, b: Byte)
    ensures d | (a ^ b) == 0 <==> d == 0 && a == b
  {}

  /** The tag comparison, which looks at every byte whatever the outcome. */
  /** mbedtls_zeroize on a part of memory. */
  method Zeroize(mem: array<Byte>, at: nat, n: nat)
    requires at + n <= mem.Length
    modifies mem
    ensures mem[..] == Replaced(old(mem[..]), at, Zeros(n))
  {
    hide Replaced;
    ReplacedNothing(mem[..], at);
    var i := 0;
    while i < n
      invariant i <= n && mem[..] == Replaced(old(mem[..]), at, Zeros(n)[..i])
    {
      ReplacedOne(old(mem[..]), at, Zeros(n), i);
      mem[at + i] := 0;
      i := i + 1;
    }
    assert Zeros(n)[..i] == Zeros(n);
  }

  method Difference(a: seq<Byte>, b: seq<Byte>) returns (diff: Byte)
    requires |a| == |b|
    ensures diff == 0 <==> a == b
  {
    diff := 0;
    var i := 0;
    while i < |a|
      invariant i <= |a|
      invariant diff == 0 <==> a[..i] == b[..i]
    {
      OrIsZero(diff, a[i], b[i]);
      assert a[..i + 1] == a[..i] + [a[i]] && b[..i + 1] == b[..i] + [b[i]];
      diff := diff | (a[i] ^ b[i]);
      i := i + 1;
    }
    assert a[..i] == a && b[..i] == b;
  }

  class Context {
    /** The keyed block cipher. */
    const E: Cipher
    const HL: array<bv64>
    const HH: array<bv64>
    const y: array<Byte>
    const buf: array<Byte>
    const baseEctr: array<Byte>
    var len: nat
    var addLen: nat
    var mode: Mode

    ghost predicate Shaped() {
      && HL.Length == HH.Length == 16 && HL != HH
      && y.Length == buf.Length == baseEctr.Length == 16
      && y != buf && y != baseEctr && buf != baseEctr
    }

    /** The table HH || HL as field elements. */
    ghost function Table(): (t: seq<Elem>)
      reads HL, HH
      requires Shaped()
      ensures |t| == 16
    {
      seq(16, i requires 0 <= i < 16 reads HL, HH => Elem(HH[i], HL[i]))
    }

    ghost predicate Keyed()
      reads HL, HH
    {
      Shaped() && IsTable(Table(), Load(HashKey(E)))
    }

    ghost predicate Valid()
      reads this, HL, HH, buf
    {
      && Keyed()
      && len <= MAX_LENGTH && addLen < TWO61
      && (len == 0 && addLen == 0 ==> buf[..] == Zeros(16))
    }

    /** The message state. */
    ghost function State(): Stream
      reads this, y, buf, baseEctr
      requires Shaped()
    {
      Stream(mode, y[..], buf[..], baseEctr[..], len, addLen)
    }

    /** mbedtls_gcm_init followed by mbedtls_gcm_setkey */
    constructor (E: Cipher)
      ensures Valid() && this.E == E
      ensures fresh(HL) && fresh(HH) && fresh(y) && fresh(buf) && fresh(baseEctr)
    {
      this.E := E;
      HL, HH := new bv64[16], new bv64[16];
      y, buf, baseEctr := new Byte[16], new Byte[16], new Byte[16];
      len, addLen, mode := 0, 0, Decrypt;
      new;
      Put(y, Zeros(16));
      Put(buf, Zeros(16));
      Put(baseEctr, Zeros(16));
      GenTable();
    }

    method Lookup(n: nat) returns (r: Elem)
      requires Shaped() && n < 16
      ensures r == Table()[n]
    {
      r := Elem(HH[n], HL[n]);
    }

    method SetEntry(n: nat, v: Elem)
      requires Shaped() && n < 16
      modifies HL, HH
      ensures Table() == old(Table())[n := v]
    {
      HL[n], HH[n] := v.lo, v.hi;
    }

    /** gcm_gen_table */
    method GenTable()
      requires Shaped()
      modifies HL, HH
      ensures IsTable(Table(), Load(HashKey(E)))
    {
      hide Load, Entry, Table;
      var h := E(Zeros(16));
      GenPowers(Load(h));
      GenSums(Load(h));
    }

    /** The entries 8, 4, 2, 1 and 0: the key and its multiples by powers of P. */
    method GenPowers(h: Elem)
      requires Shaped()
      modifies HL, HH
      ensures forall k: nat :: PowerOfP(k) ==> Table()[k] == Entry(k, h)
    {
      hide MulP, LowOf, HighHalved, Entry, Table;
      EntryPowers(h);
      var v := h;
      SetEntry(8, v);
      SetEntry(0, ZERO);
      var i := 4;
      while i > 0
        invariant i == 4 || i == 2 || i == 1 || i == 0
        invariant i > 0 ==> v == Entry(2 * i, h)
        invariant forall k: nat :: PowerOfP(k) && (k == 0 || k > i) ==> Table()[k] == Entry(k, h)
      {
        HighHalvedIsMulP(v);
        EntryHalves(i, h);
        v := Elem(HighHalved(v.hi, v.lo), LowOf(v.hi, v.lo));
        SetEntry(i, v);
        i := i / 2;
      }
    }

    /** The other entries, as sums. */
    method GenSums(h: Elem)
      requires Shaped()
      requires forall k: nat :: PowerOfP(k) ==> Table()[k] == Entry(k, h)
      modifies HL, HH
      ensures IsTable(Table(), h)
    {
      hide Entry, Table, Add;
      var i := 2;
      while i <= 8
        invariant i == 2 || i == 4 || i == 8 || i == 16
        invariant forall k: nat :: k < i || PowerOfP(k) ==> Table()[k] == Entry(k, h)
        decreases 16 - i
      {
        var v := Lookup(i);
        var j := 1;
        while j < i
          invariant 1 <= j <= i
          invariant forall k: nat :: k < i + j || PowerOfP(k) ==> Table()[k] == Entry(k, h)
        {
          EntrySplits(i, j, h);
          var e := Lookup(j);
          SetEntry(i + j, Add(v, e));
          j := j + 1;
        }
        i := i * 2;
      }
    }

    /** n times the hash key. */
    method Multiple(n: nat) returns (r: Elem)
      requires Keyed() && n < 16
      ensures r == Entry(n, Load(HashKey(E)))
    {
      hide Load, HashKey, Entry, Table;
      r := Lookup(n);
    }

    /** The shift by four bits with its correction, then the addition of a table entry. */
    method ShiftAndAdd(z: Elem, n: nat) returns (r: Elem)
      requires Keyed() && n < 16
      ensures r == Add(Entry(n, Load(HashKey(E))), MulP4(z))
    {
      hide Load, HashKey, Entry, IsTable, MulP4, Remainder, Low4, High4, Xor64;
      var rem := Remainder(z.lo);
      ShoupShiftIsMulP4(z);
      r := Elem(High4(z.hi, rem), Low4(z.hi, z.lo));
      var e := Multiple(n);
      AddCommutes(r, e);
      r := Elem(Xor64(r.hi, e.hi), Xor64(r.lo, e.lo));
    }

    /** gcm_mult: output becomes x times the hash key; the two buffers may be the same. */
    method Mult(x: array<Byte>, output: array<Byte>)
      requires Keyed()
      requires x.Length == output.Length == 16
      modifies output
      ensures output[..] == Mul(old(x[..]), HashKey(E))
    {
      hide Mul, Store, Load, HashKey, Horner;
      MulIsHorner(x[..], HashKey(E));
      var z := Accumulate(x[..]);
      Put(output, Store(z));
    }

    /** The loop of gcm_mult over the bytes of x, last byte first. */
    method Accumulate(s: Block) returns (z: Elem)
      requires Keyed()
      ensures z == Horner(s, Load(HashKey(E)))
    {
      hide Load, HashKey, LowNibble, Horner, Entry, IsTable;
      ghost var h := Load(HashKey(E));
      z := Multiple(LowNibble(s[15]));
      var i := 15;
      while i >= 0
        invariant -1 <= i <= 15
        invariant i == 15 ==> z == Entry(LowNibble(s[15]), h)
        invariant i < 15 ==> z == Horner(s[i + 1..], h)
      {
        HornerUnfolds(s, i, h);
        z := Absorb(z, s[i], i != 15);
        i := i - 1;
      }
      assert s[0..] == s;
    }

    /** One round of that loop; the first one finds the low nibble of the last byte already added. */
    method Absorb(z: Elem, b: Byte, shift: bool) returns (r: Elem)
      requires Keyed()
      requires !shift ==> z == Entry(LowNibble(b), Load(HashKey(E)))
      ensures r == HornerByte(b, if shift then z else ZERO, Load(HashKey(E)))
    {
      hide Load, HashKey, LowNibble, HighNibble, Entry, IsTable, MulP4, Add;
      var lo := LowNibble(b);
      var hi := HighNibble(b);
      r := z;
      if shift {
        r := ShiftAndAdd(r, lo);
      } else {
        MulP4Zero();
        AddZero(z);
      }
      r := ShiftAndAdd(r, hi);
    }

    // ---------- The message interface ----------

    /** Exclusive-or the string into the front of the buffer, then multiply: one GHASH step. */
    method HashBlock(a: array<Byte>, s: seq<Byte>)
      requires Keyed() && a.Length == 16 && |s| <= 16
      modifies a
      ensures a[..] == Mul(Xor(old(a[..]), PadBlock(s)), HashKey(E))
    {
      hide Mul, Xor, PadBlock, HashKey, Load, IsTable, Table;
      XorInto(a, s);
      Mult(a, a);
    }

    /** GHASH over a string taken 16 bytes at a time, the last piece possibly shorter. */
    method HashString(a: array<Byte>, s: seq<Byte>)
      requires Keyed() && a.Length == 16
      modifies a
      ensures a[..] == Ghash(HashKey(E), old(a[..]), Pad16(s))
    {
      hide Mul, Xor, PadBlock, HashKey, Load, IsTable, Table, Ghash, Pad16;
      ghost var y0 := a[..];
      var k := 0;
      GhashNone(HashKey(E), y0);
      while k < |s|
        invariant k <= |s|
        invariant k % 16 == 0 || k == |s|
        invariant a[..] == Ghash(HashKey(E), y0, Pad16(s[..k]))
      {
        var n := Min(|s| - k, 16);
        GhashStep(HashKey(E), y0, s, k, n);
        HashBlock(a, s[k..k + n]);
        k := k + n;
      }
      assert s[..k] == s;
    }

    /** mbedtls_gcm_starts */
    method Starts(mode: Mode, iv: seq<Byte>, add: seq<Byte>) returns (ret: int)
      requires Valid()
      modifies this, y, buf, baseEctr
      ensures Valid()
      ensures ret == if |iv| < TWO61 && |add| < TWO61 then OK else BAD_INPUT
      ensures State() == if ret == OK then Started(E, mode, iv, add) else old(State())
    {
      hide Mul, Xor, HashKey, Load, IsTable, Table, Ghash, Pad16, StartCounter;
      if |iv| >= TWO61 || |add| >= TWO61 {
        return BAD_INPUT;
      }
      this.mode, len, addLen := mode, 0, 0;
      Put(buf, Zeros(16));
      SetCounter(iv);
      Put(baseEctr, E(y[..]));
      addLen := |add|;
      HashString(buf, add);
      if add == [] {
        GhashNone(HashKey(E), Zeros(16));
      }
      return OK;
    }

    /** The part of mbedtls_gcm_starts that derives the counter from the IV. */
    method SetCounter(iv: seq<Byte>)
      requires Keyed() && |iv| < TWO61
      modifies y
      ensures y[..] == StartCounter(E, iv)
    {
      hide Mul, Xor, HashKey, Load, IsTable, Table, Ghash, Pad16, PadBlock, BigEndian;
      if |iv| == 12 {
        Put(y, iv + [0, 0, 0, 1]);
      } else {
        Put(y, Zeros(16));
        var workBuf: Block := Zeros(12) + BigEndian(8 * |iv|, 4);
        HashString(y, iv);
        GhashAppends(HashKey(E), Zeros(16), Pad16(iv), workBuf);
        GhashOne(HashKey(E), y[..], workBuf);
        PadWhole(workBuf);
        HashBlock(y, workBuf);
      }
    }

    /** One round of the loop of mbedtls_gcm_update. */
    method CryptBlock(p: seq<Byte>) returns (out: seq<Byte>)
      requires Valid() && 0 < |p| <= 16 && len > 0
      modifies y, buf
      ensures Valid()
      ensures out == Output(E, old(State()), p)
      ensures State() == Updated(E, old(State()), p).(len := len)
    {
      hide Mul, Xor, HashKey, Load, IsTable, Table, PadBlock, Ghash, Inc32, CipherText, IncBy, Gctr;
      UpdatedShort(E, State(), p);
      Inc32IsSucc(y[..]);
      CipherTextCases(E, State(), p);
      Increment(y, 12);
      var ectr := E(y[..]);
      out := Xor(p, ectr[..|p|]);
      HashBlock(buf, if mode == Encrypt then out else p);
    }

    /** mbedtls_gcm_update */
    method Update(input: seq<Byte>) returns (ret: int, output: seq<Byte>)
      requires Valid() && |input| < TWO64
      modifies this, y, buf
      ensures Valid()
      ensures ret == if old(len) + |input| <= MAX_LENGTH then OK else BAD_INPUT
      ensures ret == OK ==> output == Output(E, old(State()), input) && State() == Updated(E, old(State()), input)
      ensures ret != OK ==> State() == old(State())
    {
      hide HashKey, Load, IsTable, Table, Output, Updated;
      output := [];
      ghost var s0 := State();
      var sum := (len + |input|) % TWO64;
      if sum < len || sum > MAX_LENGTH {
        return BAD_INPUT, [];
      }
      len := len + |input|;
      UpdatedNone(E, s0);
      var k := 0;
      while k < |input|
        invariant k <= |input|
        invariant k % 16 == 0 || k == |input|
        invariant Valid() && len == s0.len + |input|
        invariant State() == Updated(E, s0, input[..k]).(len := len)
        invariant output == Output(E, s0, input[..k])
      {
        var n := Min(|input| - k, 16);
        UpdateStep(E, s0, input, k, n, len);
        var out := CryptBlock(input[k..k + n]);
        output := output + out;
        k := k + n;
      }
      assert input[..k] == input;
      LengthOfUpdated(E, s0, input);
      return OK, output;
    }

    /** A round of the loop on memory in which input and output may share bytes. */
    method CryptInMemory(mem: array<Byte>, src: nat, dst: nat, n: nat)
      requires Valid() && 0 < n <= 16 && len > 0 && mem != y && mem != buf && mem != baseEctr
      requires src + n <= mem.Length && dst + n <= mem.Length && (dst <= src || src + n <= dst)
      modifies y, buf, mem
      ensures Valid()
      ensures var p := old(mem[src..src + n]);
              && mem[..] == Replaced(old(mem[..]), dst, Output(E, old(State()), p))
              && State() == Updated(E, old(State()), p).(len := len)
    {
      hide Mul, Xor, HashKey, Load, IsTable, Table, PadBlock, Inc32, Replaced, CipherSide, Output, Updated;
      ghost var p := mem[src..src + n];
      UpdatedRound(E, State(), p);
      Inc32IsSucc(y[..]);
      Increment(y, 12);
      var ectr := E(y[..]);
      MaskBytes(mem, src, dst, ectr[..n], buf, mode);
      Mult(buf, buf);
    }

    /** mbedtls_gcm_update on memory: the input at src, the output at dst. */
    method UpdateInMemory(mem: array<Byte>, src: nat, dst: nat, length: nat) returns (ret: int)
      requires Valid() && length < TWO64 && mem != y && mem != buf && mem != baseEctr
      requires src + length <= mem.Length && dst + length <= mem.Length
      modifies this, y, buf, mem
      ensures Valid()
      ensures ret == if !Apart(src, dst, length) || old(len) + length > MAX_LENGTH then BAD_INPUT else OK
      ensures ret == OK ==>
                var input := old(mem[src..src + length]);
                && mem[..] == Replaced(old(mem[..]), dst, Output(E, old(State()), input))
                && State() == Updated(E, old(State()), input)
      ensures ret != OK ==> State() == old(State()) && mem[..] == old(mem[..])
    {
      hide HashKey, Load, IsTable, Table, Output, Updated, Replaced;
      ghost var s0, m0 := State(), mem[..];
      ghost var input := m0[src..src + length];
      if dst > src && dst - src < length {
        return BAD_INPUT;
      }
      var sum := (len + length) % TWO64;
      if sum < len || sum > MAX_LENGTH {
        return BAD_INPUT;
      }
      len := len + length;
      UpdatedNone(E, s0);
      ReplacedNothing(m0, dst);
      var k := 0;
      while k < length
        invariant k <= length
        invariant k % 16 == 0 || k == length
        invariant Valid() && len == s0.len + length
        invariant State() == Updated(E, s0, input[..k]).(len := len)
        invariant mem[..] == Replaced(m0, dst, Output(E, s0, input[..k]))
      {
        var n := Min(length - k, 16);
        UpdateStepInMemory(E, s0, m0, src, dst, length, k, n, len);
        assert mem[src + k..src + k + n] == mem[..][src + k..src + k + n];
        CryptInMemory(mem, src + k, dst + k, n);
        k := k + n;
      }
      assert input[..k] == input;
      LengthOfUpdated(E, s0, input);
      return OK;
    }

    /** mbedtls_gcm_finish */
    method Finish(tagLen: nat) returns (ret: int, tag: seq<Byte>)
      requires Valid()
      modifies buf
      ensures Valid()
      ensures ret == if 4 <= tagLen <= 16 then OK else BAD_INPUT
      ensures ret == OK ==> tag == Finished(E, old(State()), tagLen)
      ensures ret != OK ==> State() == old(State())
    {
      hide Mul, Xor, HashKey, Load, IsTable, Table, PadBlock, LengthBlock;
      if tagLen > 16 || tagLen < 4 {
        return BAD_INPUT, [];
      }
      FinishedPrefix(E, State(), tagLen);
      tag := baseEctr[..tagLen];
      var origLen, origAddLen := len * 8, addLen * 8;
      if origLen != 0 || origAddLen != 0 {
        PadWhole(LengthBlock(addLen, len));
        HashBlock(buf, LengthBlock(addLen, len));
        tag := Xor(buf[..tagLen], tag);
      }
      return OK, tag;
    }

    /** mbedtls_gcm_crypt_and_tag */
    method CryptAndTag(mode: Mode, iv: seq<Byte>, add: seq<Byte>, input: seq<Byte>, tagLen: nat)
      returns (ret: int, output: seq<Byte>, tag: seq<Byte>)
      requires Valid() && |input| < TWO64
      modifies this, y, buf, baseEctr
      ensures Valid()
      ensures ret == if Accepted(iv, add, input, tagLen) then OK else BAD_INPUT
      ensures output == if Fits(iv, add, input) then Output(E, Started(E, mode, iv, add), input) else []
      ensures ret == OK ==> tag == Finished(E, Updated(E, Started(E, mode, iv, add), input), tagLen)
      ensures |iv| < TWO29 && ret == OK && mode == Encrypt ==> (output, tag) == Seal(E, iv, input, add, tagLen)
    {
      hide Started, Output, Updated, Finished, Seal;
      ret := Starts(mode, iv, add);
      if ret != OK {
        return ret, [], [];
      }
      SealedInOneUpdate(E, iv, add, input, tagLen);
      StartedLengths(E, mode, iv, add);
      ret, output := Update(input);
      if ret != OK {
        return ret, [], [];
      }
      ret, tag := Finish(tagLen);
    }

    /** mbedtls_gcm_auth_decrypt */
    method AuthDecrypt(iv: seq<Byte>, add: seq<Byte>, tag: seq<Byte>, input: seq<Byte>)
      returns (ret: int, output: seq<Byte>)
      requires Valid() && |input| < TWO64
      modifies this, y, buf, baseEctr
      ensures Valid()
      ensures (ret, output) == Decrypted(E, iv, add, tag, input)
      ensures ret == BAD_INPUT <==> !Accepted(iv, add, input, |tag|)
      ensures ret != BAD_INPUT && |iv| < TWO29 ==>
                match Open(E, iv, input, add, tag)
                case Plaintext(p) => ret == OK && output == p
                case Fail => ret == AUTH_FAILED && output == Zeros(|input|)
    {
      hide Started, Output, Updated, Finished, Open;
      var checkTag;
      ret, output, checkTag := CryptAndTag(Decrypt, iv, add, input, |tag|);
      if ret != OK {
        return;
      }
      OpenedInOneUpdate(E, iv, add, input, tag);
      var diff := Difference(tag, checkTag);
      if diff != 0 {
        ret, output := AUTH_FAILED, Zeros(|input|);
      }
    }

    /** mbedtls_gcm_crypt_and_tag on memory: the input at src, the output at dst. */
    method CryptAndTagInMemory(mode: Mode, iv: seq<Byte>, add: seq<Byte>, mem: array<Byte>, src: nat, dst: nat,
                               length: nat, tagLen: nat)
      returns (ret: int, tag: seq<Byte>)
      requires Valid() && length < TWO64 && mem != y && mem != buf && mem != baseEctr
      requires src + length <= mem.Length && dst + length <= mem.Length
      modifies this, y, buf, baseEctr, mem
      ensures Valid()
      ensures var input, s := old(mem[src..src + length]), Started(E, mode, iv, add);
              && ret == (if Apart(src, dst, length) && Accepted(iv, add, input, tagLen) then OK else BAD_INPUT)
              && mem[..] == (if Apart(src, dst, length) && Fits(iv, add, input)
                             then Replaced(old(mem[..]), dst, Output(E, s, input)) else old(mem[..]))
              && (ret == OK ==> tag == Finished(E, Updated(E, s, input), tagLen))
              && (|iv| < TWO29 && ret == OK && mode == Encrypt ==>
                    (mem[dst..dst + length], tag) == Seal(E, iv, input, add, tagLen))
    {
      hide Started, Output, Updated, Finished, Seal, Replaced;
      ghost var m0, input := mem[..], mem[src..src + length];
      assert input == m0[src..src + length];
      ret := Starts(mode, iv, add);
      if ret != OK {
        return ret, [];
      }
      StartedLengths(E, mode, iv, add);
      ret := UpdateInMemory(mem, src, dst, length);
      if ret != OK {
        return ret, [];
      }
      ghost var s := Started(E, mode, iv, add);
      ReplacedAgain(m0, dst, Output(E, s, input), Output(E, s, input));
      SealedInOneUpdate(E, iv, add, input, tagLen);
      ret, tag := Finish(tagLen);
    }

    /**
     * mbedtls_gcm_auth_decrypt on memory. In place the input is gone after every accepted call, also when
     * the tag is wrong: its only copy has then become zeros.
     */
    method AuthDecryptInMemory(iv: seq<Byte>, add: seq<Byte>, tag: seq<Byte>, mem: array<Byte>, src: nat, dst: nat,
                               length: nat)
      returns (ret: int)
      requires Valid() && length < TWO64 && mem != y && mem != buf && mem != baseEctr
      requires src + length <= mem.Length && dst + length <= mem.Length
      modifies this, y, buf, baseEctr, mem
      ensures Valid()
      ensures !Apart(src, dst, length) ==> ret == BAD_INPUT && mem[..] == old(mem[..])
      ensures Apart(src, dst, length) ==>
                var (code, output) := Decrypted(E, iv, add, tag, old(mem[src..src + length]));
                ret == code && mem[..] == Replaced(old(mem[..]), dst, output)
      ensures ret != BAD_INPUT && |iv| < TWO29 ==>
                match Open(E, iv, old(mem[src..src + length]), add, tag)
                case Plaintext(p) => ret == OK && mem[dst..dst + length] == p
                case Fail => ret == AUTH_FAILED && mem[dst..dst + length] == Zeros(length)
      ensures ret == AUTH_FAILED && src == dst ==> mem[src..src + length] == Zeros(length)
    {
      hide Started, Output, Updated, Finished, Open, Replaced;
      ghost var m0, input := mem[..], mem[src..src + length];
      var checkTag;
      ret, checkTag := CryptAndTagInMemory(Decrypt, iv, add, mem, src, dst, length, |tag|);
      ReplacedNothing(m0, dst);
      if ret != OK {
        return;
      }
      OpenedInOneUpdate(E, iv, add, input, tag);
      ghost var output := Output(E, Started(E, Decrypt, iv, add), input);
      ReplacedAgain(m0, dst, output, Zeros(length));
      ReplacedAgain(m0, dst, Zeros(length), output);
      var diff := Difference(tag, checkTag);
      if diff != 0 {
        Zeroize(mem, dst, length);
        return AUTH_FAILED;
      }
    }
  }
}
