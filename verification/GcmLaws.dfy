/** What the start / update / finish interface promises over whole messages. */
module GcmLaws {
  import opened BlockCipher
  import opened Bytes
  import opened Words
  import opened GhashField
  import opened GhashRing
  import opened GcmSpec
  import opened GcmStream

  // ---------- Any number of updates ----------

  /** Only the last update with any bytes in it may end inside a block. */
  predicate Aligned(chunks: seq<seq<Byte>>) {
    forall i, j :: 0 <= i < j < |chunks| && |chunks[i]| % 16 != 0 ==> chunks[j] == []
  }

  function UpdatedAll(E: Cipher, s: Stream, chunks: seq<seq<Byte>>): Stream
    decreases |chunks|
  {
    if chunks == [] then s else UpdatedAll(E, Updated(E, s, chunks[0]), chunks[1..])
  }

  function OutputAll(E: Cipher, s: Stream, chunks: seq<seq<Byte>>): seq<Byte>
    decreases |chunks|
  {
    if chunks == [] then [] else Output(E, s, chunks[0]) + OutputAll(E, Updated(E, s, chunks[0]), chunks[1..])
  }

  /** However a message is cut at block boundaries, the state and the output are those of one update. */
  lemma {:induction false} ChunkingIsInvisible(E: Cipher, s: Stream, chunks: seq<seq<Byte>>)
    requires Aligned(chunks)
    ensures UpdatedAll(E, s, chunks) == Updated(E, s, Concat(chunks))
    ensures OutputAll(E, s, chunks) == Output(E, s, Concat(chunks))
    decreases |chunks|
  {
    hide Updated, Output;
    if chunks == [] {
      UpdatedNone(E, s);
    } else if |chunks[0]| % 16 == 0 {
      ChunkingIsInvisible(E, Updated(E, s, chunks[0]), chunks[1..]);
      UpdatedAppends(E, s, chunks[0], Concat(chunks[1..]));
    } else {
      var t := Updated(E, s, chunks[0]);
      assert AllEmpty(chunks[1..]);
      EmptyUpdates(E, t, chunks[1..]);
      assert chunks[0] + [] == chunks[0] && Output(E, s, chunks[0]) + [] == Output(E, s, chunks[0]);
    }
  }

  predicate AllEmpty(chunks: seq<seq<Byte>>) { forall i :: 0 <= i < |chunks| ==> chunks[i] == [] }

  lemma {:induction false} EmptyUpdates(E: Cipher, s: Stream, chunks: seq<seq<Byte>>)
    requires AllEmpty(chunks)
    ensures Concat(chunks) == [] && UpdatedAll(E, s, chunks) == s && OutputAll(E, s, chunks) == []
    decreases |chunks|
  {
    hide Updated, Output;
    if chunks != [] {
      UpdatedNone(E, s);
      EmptyUpdates(E, s, chunks[1..]);
    }
  }

  // ---------- Agreement with the standard ----------

  lemma FullTagUnfolds(E: Cipher, j0: Block, a: seq<Byte>, c: seq<Byte>)
    ensures FullTag(E, j0, a, c) ==
            Xor(Mul(Xor(Ghash(HashKey(E), Ghash(HashKey(E), Zeros(16), Pad16(a)), Pad16(c)),
                        LengthBlock(|a|, |c|)), HashKey(E)), E(j0))
  {
    hide Ghash, Mul, Xor, BigEndian, HashKey, Pad16;
    var h, z := HashKey(E), Zeros(16);
    var l := LengthBlock(|a|, |c|);
    assert Pad16(a) + Pad16(c) + BigEndian(8 * |a|, 8) + BigEndian(8 * |c|, 8) == (Pad16(a) + Pad16(c)) + l;
    GhashAppends(h, z, Pad16(a) + Pad16(c), l);
    GhashAppends(h, z, Pad16(a), Pad16(c));
    var y := Ghash(h, Ghash(h, z, Pad16(a)), Pad16(c));
    GhashOne(h, y, l);
    var s := Mul(Xor(y, l), h);
    assert E(j0)[..16] == E(j0);
    assert Gctr(E, j0, s) == Xor(s, E(j0));
  }

  /** starts, update and finish compute GCTR and the tag of the standard from the counter of `starts`. */
  lemma StreamComputesTag(E: Cipher, mode: Mode, iv: seq<Byte>, a: seq<Byte>, input: seq<Byte>, t: nat)
    requires t <= 16
    ensures var s := Started(E, mode, iv, a);
            var j0 := StartCounter(E, iv);
            && Output(E, s, input) == Gctr(E, Inc32(j0), input)
            && Finished(E, Updated(E, s, input), t) == FullTag(E, j0, a, CipherText(E, s, input))[..t]
  {
    hide Ghash, Mul, Xor, HashKey, Pad16, LengthBlock, StartCounter, FullTag, CipherText, IncBy, Gctr, Inc32;
    var s := Started(E, mode, iv, a);
    FullTagUnfolds(E, StartCounter(E, iv), a, CipherText(E, s, input));
  }

  /** For an IV shorter than 2^29 bytes a message is sealed exactly as the standard says. */
  lemma StreamSeals(E: Cipher, iv: seq<Byte>, a: seq<Byte>, chunks: seq<seq<Byte>>, t: nat)
    requires t <= 16 && |iv| < TWO29 && Aligned(chunks)
    ensures var s := Started(E, Encrypt, iv, a);
            (OutputAll(E, s, chunks), Finished(E, UpdatedAll(E, s, chunks), t)) == Seal(E, iv, Concat(chunks), a, t)
  {
    hide Ghash, Gctr, Inc32, FullTag, Updated, Finished, StartCounter, PreCounter, OutputAll, UpdatedAll;
    StartCounterIsPreCounter(E, iv);
    ChunkingIsInvisible(E, Started(E, Encrypt, iv, a), chunks);
    StreamComputesTag(E, Encrypt, iv, a, Concat(chunks), t);
  }

  /** Decrypting what was encrypted gives back the plaintext and the same tag, for every IV. */
  lemma StreamRoundTrip(E: Cipher, iv: seq<Byte>, a: seq<Byte>, p: seq<Byte>, t: nat)
    requires t <= 16
    ensures var s, r := Started(E, Encrypt, iv, a), Started(E, Decrypt, iv, a);
            var c := Output(E, s, p);
            && Output(E, r, c) == p
            && Finished(E, Updated(E, r, c), t) == Finished(E, Updated(E, s, p), t)
  {
    hide Ghash, Gctr, Inc32, FullTag, Updated, Finished, StartCounter;
    var s, r := Started(E, Encrypt, iv, a), Started(E, Decrypt, iv, a);
    StreamComputesTag(E, Encrypt, iv, a, p, t);
    StreamComputesTag(E, Decrypt, iv, a, Output(E, s, p), t);
    GctrTwice(E, Inc32(StartCounter(E, iv)), p);
  }

  // ---------- The IV length ----------

  const TWO29: nat := 0x2000_0000

  /** n without its last k bytes. */
  function Shift(n: nat, k: nat): nat {
    if k == 0 then n else Shift(n / 256, k - 1)
  }

  lemma {:induction false} BigEndianSplits(n: nat, j: nat, k: nat)
    ensures BigEndian(n, j + k) == BigEndian(Shift(n, k), j) + BigEndian(n, k)
    decreases k
  {
    if k > 0 {
      BigEndianSplits(n / 256, j, k - 1);
    }
  }

  lemma ShiftFour(n: nat)
    ensures Shift(n, 4) == n / 256 / 256 / 256 / 256
    ensures Shift(n, 4) == 0 <==> n < TWO32
    ensures n < TWO64 ==> Shift(n, 4) < TWO32
  {
    var a := n / 256;
    var b := a / 256;
    var c := b / 256;
    var d := c / 256;
    assert Shift(n, 4) == Shift(a, 3) == Shift(b, 2) == Shift(c, 1) == d;
    Quotient(n, 0x100_0000);
    Quotient(a, 0x1_0000);
    Quotient(b, 0x100);
    Quotient(n, 0x100_0000_0000_0000);
    Quotient(a, 0x1_0000_0000_0000);
    Quotient(b, 0x100_0000_0000);
    Quotient(c, TWO32);
  }

  lemma Quotient(n: nat, k: nat)
    ensures n < 256 * k <==> n / 256 < k
  {
    assert n == 256 * (n / 256) + n % 256;
  }

  /** The length block the standard hashes after the IV, and the one the code hashes. */
  function IvLength64(n: nat): Block {
    hide BigEndian;
    Zeros(8) + BigEndian(8 * n, 8)
  }

  function IvLength32(n: nat): Block {
    hide BigEndian;
    Zeros(12) + BigEndian(8 * n, 4)
  }

  lemma LengthBlocksAgree(n: nat)
    requires n < TWO61
    ensures IvLength64(n) == IvLength32(n) <==> n < TWO29
  {
    hide BigEndian;
    var hi := Shift(8 * n, 4);
    ShiftFour(8 * n);
    assert Pow256(4) == TWO32;
    BigEndianSplits(8 * n, 4, 4);
    var a, b := IvLength64(n), IvLength32(n);
    assert a[8..12] == BigEndian(hi, 4) && b[8..12] == Zeros(4);
    assert a[..8] == b[..8] == Zeros(8) && a[12..] == b[12..];
    ValueOfBigEndian(hi, 4);
    ZeroValue(4);
    if hi == 0 {
      BigEndianOfValue(Zeros(4));
      assert a == a[..8] + a[8..12] + a[12..] && b == b[..8] + b[8..12] + b[12..];
    }
  }

  lemma {:induction false} ZeroValue(k: nat)
    ensures Value(Zeros(k)) == 0
  {
    if k > 0 {
      assert Zeros(k)[..k - 1] == Zeros(k - 1);
      ZeroValue(k - 1);
    }
  }

  lemma CountersUnfold(E: Cipher, iv: seq<Byte>)
    requires |iv| != 12
    ensures var y := Ghash(HashKey(E), Zeros(16), Pad16(iv));
            && PreCounter(E, iv) == Mul(Xor(y, IvLength64(|iv|)), HashKey(E))
            && StartCounter(E, iv) == Mul(Xor(y, IvLength32(|iv|)), HashKey(E))
  {
    hide Ghash, Mul, Xor, BigEndian, HashKey, Pad16;
    var h, z, p := HashKey(E), Zeros(16), Pad16(iv);
    var a, b := IvLength64(|iv|), IvLength32(|iv|);
    assert p + Zeros(8) + BigEndian(8 * |iv|, 8) == p + a;
    GhashAppends(h, z, p, a);
    GhashAppends(h, z, p, b);
    GhashOne(h, Ghash(h, z, p), a);
    GhashOne(h, Ghash(h, z, p), b);
  }

  lemma StartCounterIsPreCounter(E: Cipher, iv: seq<Byte>)
    requires |iv| < TWO29
    ensures StartCounter(E, iv) == PreCounter(E, iv)
  {
    hide Ghash, Mul, Xor, BigEndian, HashKey, Pad16, IvLength32, IvLength64;
    if |iv| != 12 {
      CountersUnfold(E, iv);
      LengthBlocksAgree(|iv|);
    }
  }

  lemma MulIsTimes(x: Block, h: Block)
    ensures Mul(x, h) == Store(Times(Load(x), Load(h)))
  {
    hide Load, Store, Times, Product;
    TimesIsProduct(x, Load(h));
  }

  lemma ZeroKey(h: Block)
    ensures Load(h) == ZERO <==> h == Zeros(16)
  {
    hide Load, Store;
    StoreLoad(h);
    StoreZero();
    LoadZeros();
  }

  /** Multiplying by a hash key other than zero loses nothing. */
  lemma MulInjective(a: Block, b: Block, h: Block)
    requires h != Zeros(16) && Mul(a, h) == Mul(b, h)
    ensures a == b
  {
    hide Load, Store, Times, Mul;
    MulIsTimes(a, h);
    MulIsTimes(b, h);
    LoadStore(Times(Load(a), Load(h)));
    LoadStore(Times(Load(b), Load(h)));
    ZeroKey(h);
    TimesInjective(Load(a), Load(b), Load(h));
    StoreLoad(a);
    StoreLoad(b);
  }

  lemma MulByZero(x: Block)
    ensures Mul(x, Zeros(16)) == Zeros(16)
  {
    hide Load, Store, Times, Mul;
    MulIsTimes(x, Zeros(16));
    LoadZeros();
    TimesZero(Load(x));
    StoreZero();
  }

  lemma XorCancels(y: Block, a: Block, b: Block)
    requires Xor(y, a) == Xor(y, b)
    ensures a == b
  {
    hide Xor;
    XorTwice(a, y);
    XorTwice(b, y);
  }

  /**
   * Key by key: `starts` derives the pre-counter block of the standard exactly when the IV is shorter
   * than 2^29 bytes or the hash key is zero. A longer IV loses the high half of its bit length, and
   * the field has no zero divisors to hide that.
   */
  lemma IvLengthExact(E: Cipher, iv: seq<Byte>)
    requires |iv| < TWO61
    ensures StartCounter(E, iv) == PreCounter(E, iv) <==> |iv| < TWO29 || HashKey(E) == Zeros(16)
  {
    hide Ghash, Mul, Xor, Pad16, IvLength32, IvLength64, StartCounter, PreCounter, HashKey;
    if |iv| < TWO29 {
      StartCounterIsPreCounter(E, iv);
    } else {
      var y := Ghash(HashKey(E), Zeros(16), Pad16(iv));
      var a, b := IvLength64(|iv|), IvLength32(|iv|);
      CountersUnfold(E, iv);
      if HashKey(E) == Zeros(16) {
        MulByZero(Xor(y, a));
        MulByZero(Xor(y, b));
      } else if StartCounter(E, iv) == PreCounter(E, iv) {
        MulInjective(Xor(y, a), Xor(y, b), HashKey(E));
        XorCancels(y, a, b);
        LengthBlocksAgree(|iv|);
      }
    }
  }

  // ---------- The counter over a whole message ----------

  /** The number of counter blocks a list of updates takes. */
  function CountersTaken(chunks: seq<seq<Byte>>): nat {
    if chunks == [] then 0 else Blocks(|chunks[0]|) + CountersTaken(chunks[1..])
  }

  /** Byte i of an update is masked with the counter block i/16 steps on. */
  lemma {:induction false} KeystreamAt(E: Cipher, icb: Block, x: seq<Byte>, i: nat)
    requires i < |x|
    ensures Gctr(E, icb, x)[i] == XorByte(x[i], E(IncBy(icb, i / 16))[i % 16])
    decreases |x|
  {
    hide Inc32;
    if i < 16 {
      assert i / 16 == 0 && i % 16 == i;
    } else {
      KeystreamAt(E, Inc32(icb), x[16..], i - 16);
      assert (i - 16) / 16 == i / 16 - 1 && (i - 16) % 16 == i % 16;
      IncByAdds(icb, 1, i / 16 - 1);
      assert IncBy(icb, 1) == Inc32(IncBy(icb, 0)) == Inc32(icb);
    }
  }

  lemma CounterOfUpdated(E: Cipher, s: Stream, input: seq<Byte>)
    ensures Updated(E, s, input).y == IncBy(s.y, Blocks(|input|))
  {}

  lemma {:induction false} CounterAfter(E: Cipher, s: Stream, chunks: seq<seq<Byte>>)
    ensures UpdatedAll(E, s, chunks).y == IncBy(s.y, CountersTaken(chunks))
    decreases |chunks|
  {
    hide Updated, IncBy, Blocks;
    if chunks == [] {
      StartOfCount(s.y);
    } else {
      CounterOfUpdated(E, s, chunks[0]);
      CounterAfter(E, Updated(E, s, chunks[0]), chunks[1..]);
      IncByAdds(s.y, Blocks(|chunks[0]|), CountersTaken(chunks[1..]));
    }
  }

  lemma {:induction false} AlignedCounters(chunks: seq<seq<Byte>>)
    requires Aligned(chunks)
    ensures CountersTaken(chunks) == Blocks(|Concat(chunks)|)
  {
    if chunks != [] {
      AlignedCounters(chunks[1..]);
      if |chunks[0]| % 16 == 0 {
        BlocksAdd(|chunks[0]|, |Concat(chunks[1..])|);
      } else {
        NoCounters(chunks[1..]);
      }
    }
  }

  lemma {:induction false} NoCounters(chunks: seq<seq<Byte>>)
    requires AllEmpty(chunks)
    ensures Concat(chunks) == [] && CountersTaken(chunks) == 0
  {
    if chunks != [] {
      NoCounters(chunks[1..]);
    }
  }

  /** The counter blocks a list of updates encrypts, in order. */
  function Masks(y: Block, chunks: seq<seq<Byte>>): (r: seq<Block>)
    ensures |r| == CountersTaken(chunks)
    decreases |chunks|
  {
    hide IncBy;
    if chunks == [] then []
    else
      var n := Blocks(|chunks[0]|);
      seq(n, i requires 0 <= i => IncBy(y, i + 1)) + Masks(IncBy(y, n), chunks[1..])
  }

  lemma {:induction false} MaskAt(y: Block, chunks: seq<seq<Byte>>, i: nat)
    requires i < CountersTaken(chunks)
    ensures Masks(y, chunks)[i] == IncBy(y, i + 1)
    decreases |chunks|
  {
    hide IncBy, Blocks;
    var n := Blocks(|chunks[0]|);
    if i >= n {
      MaskAt(IncBy(y, n), chunks[1..], i - n);
      IncByAdds(y, n, i - n + 1);
    }
  }

  /** Where byte k of update j stands in the message, and which mask it gets. */
  function Place(chunks: seq<seq<Byte>>, j: nat, k: nat): nat
    requires j <= |chunks|
    decreases j
  {
    if j == 0 then k else |chunks[0]| + Place(chunks[1..], j - 1, k)
  }

  function MaskOf(chunks: seq<seq<Byte>>, j: nat, k: nat): nat
    requires j <= |chunks|
    decreases j
  {
    if j == 0 then k / 16 else Blocks(|chunks[0]|) + MaskOf(chunks[1..], j - 1, k)
  }

  /** The bytes of an update are masked, sixteen at a time, with its own masks. */
  lemma {:induction false} MaskedWith(E: Cipher, s: Stream, chunks: seq<seq<Byte>>, j: nat, k: nat)
    requires j < |chunks| && k < |chunks[j]|
    ensures Place(chunks, j, k) < |OutputAll(E, s, chunks)| && MaskOf(chunks, j, k) < CountersTaken(chunks)
    ensures OutputAll(E, s, chunks)[Place(chunks, j, k)]
            == XorByte(chunks[j][k], E(Masks(s.y, chunks)[MaskOf(chunks, j, k)])[k % 16])
    decreases |chunks|
  {
    hide Output, Updated, Masks, IncBy, XorByte, Blocks;
    if j == 0 {
      MaskedFirst(E, s, chunks, k);
    } else {
      var c, u := chunks[0], Updated(E, s, chunks[0]);
      CounterOfUpdated(E, s, c);
      MaskedWith(E, u, chunks[1..], j - 1, k);
      MasksTail(s.y, chunks, MaskOf(chunks[1..], j - 1, k));
    }
  }

  lemma MasksTail(y: Block, chunks: seq<seq<Byte>>, i: nat)
    requires chunks != [] && i < CountersTaken(chunks[1..])
    ensures Masks(y, chunks)[Blocks(|chunks[0]|) + i] == Masks(IncBy(y, Blocks(|chunks[0]|)), chunks[1..])[i]
  {
    hide IncBy, Blocks;
  }

  lemma MaskedFirst(E: Cipher, s: Stream, chunks: seq<seq<Byte>>, k: nat)
    requires chunks != [] && k < |chunks[0]|
    ensures k < |OutputAll(E, s, chunks)| && k / 16 < CountersTaken(chunks)
    ensures OutputAll(E, s, chunks)[k] == XorByte(chunks[0][k], E(Masks(s.y, chunks)[k / 16])[k % 16])
  {
    hide IncBy, Gctr, Inc32, XorByte, Updated, Masks;
    WithinBlocks(k, |chunks[0]|);
    KeystreamAt(E, Inc32(s.y), chunks[0], k);
    IncFirst(s.y, k / 16);
    OneStep(s.y, k / 16);
    MaskAt(s.y, chunks, k / 16);
  }

  lemma WithinBlocks(k: nat, n: nat)
    requires k < n
    ensures k / 16 < Blocks(n)
  {}

  lemma OneStep(y: Block, k: nat)
    ensures IncBy(y, k + 1) == Inc32(IncBy(y, k))
  {}

  predicate NoRepeat(q: seq<Block>) { forall i, j :: 0 <= i < j < |q| ==> q[i] != q[j] }

  /** The masks of a list of updates differ from one another and from J0 exactly below 2^32 of them. */
  lemma CountersDistinctExact(y: Block, chunks: seq<seq<Byte>>)
    ensures NoRepeat([y] + Masks(y, chunks)) <==> CountersTaken(chunks) < TWO32
  {
    hide IncBy, Masks;
    var q, n := [y] + Masks(y, chunks), CountersTaken(chunks);
    forall i: nat | i <= n ensures q[i] == IncBy(y, i) {
      if i == 0 {
        StartOfCount(y);
      } else {
        MaskAt(y, chunks, i - 1);
      }
    }
    if n < TWO32 {
      forall i, j | 0 <= i < j < |q| ensures q[i] != q[j] {
        IncByDistinct(y, i, j);
      }
    } else {
      IncByWraps(y);
      StartOfCount(y);
      assert q[0] == q[TWO32];
    }
  }

  lemma StartOfCount(j0: Block)
    ensures IncBy(j0, 0) == j0
  {}

  /**
   * Under the length cap, with only the last update partial, the masks of a message are distinct from
   * one another and from J0, and they all keep J0's first twelve bytes.
   */
  lemma CountersNeverRepeat(E: Cipher, mode: Mode, iv: seq<Byte>, a: seq<Byte>, chunks: seq<seq<Byte>>)
    requires Aligned(chunks) && |Concat(chunks)| <= MAX_LENGTH
    ensures var s := Started(E, mode, iv, a);
            && NoRepeat([s.y] + Masks(s.y, chunks))
            && forall i :: 0 <= i < CountersTaken(chunks) ==> Masks(s.y, chunks)[i][..12] == s.y[..12]
  {
    hide Started, IncBy, Masks, NoRepeat, CountersTaken, Concat, Value;
    var y := Started(E, mode, iv, a).y;
    AlignedCounters(chunks);
    CountersDistinctExact(y, chunks);
    forall i: nat | i < CountersTaken(chunks) ensures Masks(y, chunks)[i][..12] == y[..12] {
      MaskAt(y, chunks, i);
      IncByCounts(y, i + 1);
    }
  }

  /** Without alignment the cap is no protection: 2^32 updates of one byte bring the counter back to J0. */
  lemma UnalignedUpdatesWrap(E: Cipher, s: Stream)
    ensures var chunks := seq(TWO32, _ => [0]);
            && |Concat(chunks)| <= MAX_LENGTH
            && UpdatedAll(E, s, chunks).y == s.y
  {
    hide UpdatedAll, IncBy;
    var chunks: seq<seq<Byte>> := seq(TWO32, _ => [0]);
    SingleBytes(chunks);
    CounterAfter(E, s, chunks);
    IncByWraps(s.y);
  }

  lemma {:induction false} SingleBytes(chunks: seq<seq<Byte>>)
    requires forall c :: c in chunks ==> |c| == 1
    ensures |Concat(chunks)| == |chunks| == CountersTaken(chunks)
  {
    if chunks != [] {
      SingleBytes(chunks[1..]);
    }
  }

  // ---------- Which cuts are invisible ----------

  /** Adding a constant: a block cipher with any value at one place. */
  function Adding(c: Block): Cipher { (b: Block) => Xor(b, c) }

  lemma AddingInjective(c: Block)
    ensures Injective(Adding(c))
  {
    hide Xor;
    forall a: Block, b: Block | Xor(a, c) == Xor(b, c) ensures a == b {
      XorTwice(a, c);
      XorTwice(b, c);
    }
  }

  /** Under a suitable cipher byte 0 of one encryption differs from byte r of another. */
  lemma SomeCipher(x: Block, y: Block, r: nat) returns (E: Cipher)
    requires 0 < r < 16
    ensures Injective(E) && E(x)[0] != E(y)[r]
  {
    var c: Block := [DifferentSum(x[0], y[r])] + Zeros(15);
    E := Adding(c);
    AddingInjective(c);
    SumsDiffer(x[0], y[r]);
    assert Xor(x, c)[0] == XorByte(x[0], c[0]) && Xor(y, c)[r] == XorByte(y[r], 0);
  }

  function DifferentSum(a: Byte, b: Byte): Byte { a ^ b ^ 1 }

  lemma SumsDiffer(a: Byte, b: Byte)
    ensures XorByte(a, DifferentSum(a, b)) != XorByte(b, 0)
  {}

  lemma {:induction false} FirstByte(E: Cipher, s: Stream, chunks: seq<seq<Byte>>)
    requires Concat(chunks) != []
    ensures OutputAll(E, s, chunks) != []
    ensures OutputAll(E, s, chunks)[0] == XorByte(Concat(chunks)[0], E(Inc32(s.y))[0])
    decreases |chunks|
  {
    hide Inc32, Gctr, XorByte;
    if chunks[0] == [] {
      UpdatedNone(E, s);
      FirstByte(E, s, chunks[1..]);
    } else {
      KeystreamAt(E, Inc32(s.y), chunks[0], 0);
      StartOfCount(Inc32(s.y));
    }
  }

  lemma {:induction false} LengthOfOutputs(E: Cipher, s: Stream, chunks: seq<seq<Byte>>)
    ensures |OutputAll(E, s, chunks)| == |Concat(chunks)|
    decreases |chunks|
  {
    hide Updated, Output;
    if chunks != [] {
      LengthOfOutputs(E, Updated(E, s, chunks[0]), chunks[1..]);
    }
  }

  /** The outputs depend on the counter alone. */
  lemma {:induction false} OnlyTheCounter(E: Cipher, s: Stream, t: Stream, chunks: seq<seq<Byte>>)
    requires s.y == t.y
    ensures OutputAll(E, s, chunks) == OutputAll(E, t, chunks)
    decreases |chunks|
  {
    hide Gctr, Inc32;
    if chunks != [] {
      CounterOfUpdated(E, s, chunks[0]);
      CounterOfUpdated(E, t, chunks[0]);
      OnlyTheCounter(E, Updated(E, s, chunks[0]), Updated(E, t, chunks[0]), chunks[1..]);
    }
  }

  /** The first update ends inside a block and more bytes follow. */
  lemma SplitShows(s: Stream, chunks: seq<seq<Byte>>) returns (E: Cipher)
    requires chunks != [] && |chunks[0]| % 16 != 0 && Concat(chunks[1..]) != []
    ensures Injective(E) && OutputAll(E, s, chunks) != Output(E, s, Concat(chunks))
  {
    hide Inc32, IncBy, Gctr, XorByte, Injective, Updated;
    var c, rest := chunks[0], chunks[1..];
    var n := |c|;
    var x, y := Inc32(IncBy(s.y, Blocks(n))), IncBy(Inc32(s.y), n / 16);
    E := SomeCipher(x, y, n % 16);
    var t := Updated(E, s, c);
    CounterOfUpdated(E, s, c);
    FirstByte(E, t, rest);
    KeystreamAt(E, Inc32(s.y), c + Concat(rest), n);
    assert (c + Concat(rest))[n] == Concat(rest)[0];
    assert OutputAll(E, s, chunks)[n] == OutputAll(E, t, rest)[0];
    XorDiffers(Concat(rest)[0], E(x)[0], E(y)[n % 16]);
  }

  lemma XorDiffers(a: Byte, b: Byte, c: Byte)
    requires b != c
    ensures XorByte(a, b) != XorByte(a, c)
  {}

  lemma {:induction false} CutShows(s: Stream, chunks: seq<seq<Byte>>) returns (E: Cipher)
    requires !Aligned(chunks)
    ensures Injective(E) && OutputAll(E, s, chunks) != Output(E, s, Concat(chunks))
    decreases |chunks|
  {
    hide Output, OutputAll, Concat, Injective, IncBy, Blocks;
    var c, rest := chunks[0], chunks[1..];
    if |c| % 16 != 0 {
      MoreFollows(chunks);
      E := SplitShows(s, chunks);
    } else {
      RestMisaligned(chunks);
      var t := s.(y := IncBy(s.y, Blocks(|c|)));
      E := CutShows(t, rest);
      AlignedHead(E, s, t, chunks);
    }
  }

  lemma AlignedHead(E: Cipher, s: Stream, t: Stream, chunks: seq<seq<Byte>>)
    requires chunks != [] && |chunks[0]| % 16 == 0 && t.y == IncBy(s.y, Blocks(|chunks[0]|))
    requires OutputAll(E, t, chunks[1..]) != Output(E, t, Concat(chunks[1..]))
    ensures OutputAll(E, s, chunks) != Output(E, s, Concat(chunks))
  {
    hide Output, Updated, IncBy, Blocks;
    var c, rest := chunks[0], chunks[1..];
    var u := Updated(E, s, c);
    CounterOfUpdated(E, s, c);
    OnlyTheCounter(E, t, u, rest);
    SameOutput(E, t, u, Concat(rest));
    UpdatedAppends(E, s, c, Concat(rest));
    TailsDiffer(Output(E, s, c), OutputAll(E, u, rest), Output(E, u, Concat(rest)));
  }

  lemma TailsDiffer<T>(p: seq<T>, a: seq<T>, b: seq<T>)
    requires a != b
    ensures p + a != p + b
  {
    assert (p + a)[|p|..] == a && (p + b)[|p|..] == b;
  }

  lemma SameOutput(E: Cipher, s: Stream, t: Stream, input: seq<Byte>)
    requires s.y == t.y
    ensures Output(E, s, input) == Output(E, t, input)
  {}

  lemma {:induction false} SomeByte(chunks: seq<seq<Byte>>, j: nat)
    requires j < |chunks| && chunks[j] != []
    ensures Concat(chunks) != []
  {
    if j > 0 {
      SomeByte(chunks[1..], j - 1);
    }
  }

  lemma MoreFollows(chunks: seq<seq<Byte>>)
    requires !Aligned(chunks)
    ensures Concat(chunks[1..]) != []
  {
    var i, j :| 0 <= i < j < |chunks| && |chunks[i]| % 16 != 0 && chunks[j] != [];
    SomeByte(chunks[1..], j - 1);
  }

  lemma RestMisaligned(chunks: seq<seq<Byte>>)
    requires !Aligned(chunks) && |chunks[0]| % 16 == 0
    ensures !Aligned(chunks[1..])
  {
    var i, j :| 0 <= i < j < |chunks| && |chunks[i]| % 16 != 0 && chunks[j] != [];
    var rest := chunks[1..];
    assert |rest[i - 1]| % 16 != 0 && rest[j - 1] != [];
  }

  /**
   * The cuts that do not show in the output, under every block cipher and from any state, are exactly
   * the aligned ones.
   */
  lemma ChunkingExact(s: Stream, chunks: seq<seq<Byte>>)
    ensures (forall E | Injective(E) :: OutputAll(E, s, chunks) == Output(E, s, Concat(chunks))) <==> Aligned(chunks)
  {
    hide Injective, OutputAll, Output, Concat, Aligned;
    if Aligned(chunks) {
      forall E | Injective(E) ensures OutputAll(E, s, chunks) == Output(E, s, Concat(chunks)) {
        ChunkingIsInvisible(E, s, chunks);
      }
    } else {
      var E := CutShows(s, chunks);
    }
  }
}
