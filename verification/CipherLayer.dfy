/**
 * The caching CBC layer of src/aes/cipher.c with PKCS7 padding (section 6.3 of RFC 5652): any way
 * of cutting a message into updates gives one-shot CBC of the padded message.
 */
module CipherLayer {
  import opened Basics
  import opened BlockCipher
  import opened Bytes
  import opened BlockModes

  const FULL_BLOCK_EXPECTED := -0x6280
  const INVALID_PADDING := -0x6200

  datatype Padding = Pkcs7 | NoPadding

  // ---------- PKCS7 ----------

  function Repeat(b: Byte, n: nat): (r: seq<Byte>)
    ensures |r| == n
  {
    seq(n, _ => b)
  }

  /** The number of bytes PKCS7 adds to a message of n bytes. */
  function PadLength(n: nat): (k: nat)
    ensures 1 <= k <= 16 && (n + k) % 16 == 0
  {
    16 - n % 16
  }

  function Pad(m: seq<Byte>): (r: seq<Byte>)
    ensures |r| % 16 == 0 && |m| < |r| <= |m| + 16
  {
    m + Repeat(ByteOf(PadLength(|m|)), PadLength(|m|))
  }

  /** Some data of n bytes was padded to the block b. */
  ghost predicate IsPadded(b: Block, n: nat) {
    n < 16 && b == b[..n] + Repeat(ByteOf(16 - n), 16 - n)
  }

  /** add_pkcs_padding on a buffer of one block holding n bytes of data. */
  method AddPkcsPadding(output: array<Byte>, n: nat)
    requires output.Length == 16 && n < 16
    modifies output
    ensures output[..] == old(output[..n]) + Repeat(ByteOf(16 - n), 16 - n)
  {
    var paddingLen := 16 - n;
    var v := ByteOf(paddingLen);
    var i := 0;
    while i < paddingLen
      invariant 0 <= i <= paddingLen
      invariant output[..n] == old(output[..n])
      invariant forall k :: n <= k < n + i ==> output[k] == v
    {
      output[n + i] := v;
      i := i + 1;
    }
    assert output[..] == output[..n] + output[n..];
    assert output[n..] == Repeat(v, 16 - n);
  }

  lemma BadStays(bad: Byte, x: Byte, p: Byte)
    ensures bad | XorByte(x, p) == 0 <==> bad == 0 && x == p
  {}

  /** get_pkcs_padding: the data length, and whether the block was padded at all. */
  method GetPkcsPadding(input: Block) returns (ret: int, dataLen: nat)
    ensures ret == 0 || ret == INVALID_PADDING
    ensures ret == 0 ==> IsPadded(input, dataLen)
    ensures forall n: nat :: IsPadded(input, n) ==> ret == 0 && n == dataLen
  {
    hide ByteOf;
    var p := input[15];
    var paddingLen := p as nat;
    NatOfByte(p);
    SameByte(ByteOf(paddingLen), p);
    var bad: Byte := if paddingLen > 16 || paddingLen == 0 then 1 else 0;
    ghost var bad0 := bad;
    // In the source's unsigned arithmetic the index wraps to a huge value when the length is too big.
    var padIdx := if paddingLen > 16 then 0x1_0000_0000_0000_0000 - (paddingLen - 16) else 16 - paddingLen;
    var i := 0;
    while i < 16
      invariant 0 <= i <= 16
      invariant bad == 0 <==> bad0 == 0 && forall k :: padIdx <= k < i ==> input[k] == p
    {
      if i >= padIdx {
        BadStays(bad, input[i], p);
        bad := bad | XorByte(input[i], p);
      }
      i := i + 1;
    }
    dataLen := if paddingLen > 16 then 0 else 16 - paddingLen;
    ret := if bad != 0 then INVALID_PADDING else 0;
    if bad == 0 {
      assert input == input[..dataLen] + Repeat(p, paddingLen);
    }
    forall n: nat | IsPadded(input, n) ensures bad == 0 && n == dataLen {
      PaddedLength(input, n);
    }
  }

  /** The last byte of a padded block gives its padding length. */
  lemma PaddedLength(b: Block, n: nat)
    requires IsPadded(b, n)
    ensures b[15] as nat == 16 - n
    ensures forall k :: n <= k < 16 ==> b[k] == b[15]
  {
    hide ByteOf;
    var t := Repeat(ByteOf(16 - n), 16 - n);
    forall k | n <= k < 16 ensures b[k] == ByteOf(16 - n) {
      assert b[k] == t[k - n];
    }
  }

  // ---------- What updates do ----------

  /** The chaining value and the bytes not yet processed. */
  datatype Layer = Layer(iv: Block, cache: seq<Byte>)

  /** How many of n pending bytes an update processes: when decrypting, the last block is kept back. */
  function Ready(op: Mode, n: nat): (k: nat)
    ensures k % 16 == 0 && k <= n
    ensures op == Encrypt ==> n - k < 16
    ensures op == Decrypt ==> n - k <= 16 && (n > 0 ==> n - k > 0)
  {
    if op == Encrypt then n - n % 16 else if n == 0 then 0 else (n - 1) - (n - 1) % 16
  }

  function Updated(f: Cipher, op: Mode, l: Layer, input: seq<Byte>): Layer {
    hide CbcIv;
    var all := l.cache + input;
    var k := Ready(op, |all|);
    Layer(CbcIv(f, op, l.iv, all[..k]), all[k..])
  }

  function Output(f: Cipher, op: Mode, l: Layer, input: seq<Byte>): seq<Byte> {
    hide Cbc;
    var all := l.cache + input;
    Cbc(f, op, l.iv, all[..Ready(op, |all|)])
  }

  lemma ReadyMore(op: Mode, n: nat, m: nat)
    ensures Ready(op, n + m) >= Ready(op, n)
    ensures Ready(op, n + m) == Ready(op, n) + Ready(op, n - Ready(op, n) + m)
  {
    ReadyShift(op, Ready(op, n), n - Ready(op, n) + m);
  }

  lemma ReadyShift(op: Mode, k: nat, x: nat)
    requires k % 16 == 0 && (op == Decrypt && k > 0 ==> x > 0)
    ensures Ready(op, k + x) == k + Ready(op, x)
  {
    assert (k + x) % 16 == x % 16;
    if x > 0 {
      assert (k + (x - 1)) % 16 == (x - 1) % 16;
    }
  }

  /** Two updates in a row do what one update with both inputs does. */
  lemma UpdatedAppends(f: Cipher, op: Mode, l: Layer, a: seq<Byte>, b: seq<Byte>)
    ensures Updated(f, op, Updated(f, op, l, a), b) == Updated(f, op, l, a + b)
    ensures Output(f, op, l, a + b) == Output(f, op, l, a) + Output(f, op, Updated(f, op, l, a), b)
  {
    hide Cbc, CbcIv;
    var all := l.cache + (a + b);
    var k := Ready(op, |l.cache + a|);
    var m := Ready(op, |all|);
    ReadyMore(op, |l.cache + a|, |b|);
    assert (l.cache + a)[..k] == all[..k];
    var pending := (l.cache + a)[k..] + b;
    assert pending == all[k..];
    assert all[..m] == all[..k] + pending[..m - k] && all[m..] == pending[m - k..];
    CbcAppends(f, op, l.iv, all[..k], pending[..m - k]);
  }

  function UpdatedAll(f: Cipher, op: Mode, l: Layer, chunks: seq<seq<Byte>>): Layer
    decreases |chunks|
  {
    if chunks == [] then l else UpdatedAll(f, op, Updated(f, op, l, chunks[0]), chunks[1..])
  }

  function OutputAll(f: Cipher, op: Mode, l: Layer, chunks: seq<seq<Byte>>): seq<Byte>
    decreases |chunks|
  {
    if chunks == [] then []
    else Output(f, op, l, chunks[0]) + OutputAll(f, op, Updated(f, op, l, chunks[0]), chunks[1..])
  }

  /** The bounds on the cache: below one block when encrypting, at most one when decrypting. */
  predicate CacheBound(op: Mode, l: Layer) {
    if op == Encrypt then |l.cache| < 16 else |l.cache| <= 16
  }

  lemma {:induction false} ChunkingIsInvisible(f: Cipher, op: Mode, l: Layer, chunks: seq<seq<Byte>>)
    requires CacheBound(op, l)
    ensures UpdatedAll(f, op, l, chunks) == Updated(f, op, l, Concat(chunks))
    ensures OutputAll(f, op, l, chunks) == Output(f, op, l, Concat(chunks))
    ensures CacheBound(op, UpdatedAll(f, op, l, chunks))
    decreases |chunks|
  {
    hide Updated, Output;
    UpdatedBound(f, op, l, Concat(chunks));
    if chunks == [] {
      UpdatedNone(f, op, l);
    } else {
      UpdatedBound(f, op, l, chunks[0]);
      ChunkingIsInvisible(f, op, Updated(f, op, l, chunks[0]), chunks[1..]);
      UpdatedAppends(f, op, l, chunks[0], Concat(chunks[1..]));
    }
  }

  lemma UpdatedBound(f: Cipher, op: Mode, l: Layer, input: seq<Byte>)
    ensures CacheBound(op, Updated(f, op, l, input))
  {}

  lemma UpdatedNone(f: Cipher, op: Mode, l: Layer)
    requires CacheBound(op, l)
    ensures Updated(f, op, l, []) == l
    ensures Output(f, op, l, []) == []
  {
    hide Cbc, CbcIv;
    assert l.cache + [] == l.cache && Ready(op, |l.cache|) == 0;
    CbcNone(f, op, l.iv);
  }

  // ---------- Whole messages ----------

  /** Encrypting in any pieces and finishing gives one-shot CBC of the padded message. */
  lemma EncryptAnyChunking(E: Cipher, iv: Block, chunks: seq<seq<Byte>>)
    ensures var l := UpdatedAll(E, Encrypt, Layer(iv, []), chunks);
            && |l.cache| < 16
            && OutputAll(E, Encrypt, Layer(iv, []), chunks) + CbcEncrypt(E, l.iv, PadBlockOf(l.cache))
               == CbcEncrypt(E, iv, Pad(Concat(chunks)))
  {
    hide CbcEncrypt, NextIv;
    var m := Concat(chunks);
    ChunkingIsInvisible(E, Encrypt, Layer(iv, []), chunks);
    assert [] + m == m;
    var k := Ready(Encrypt, |m|);
    PadSplits(m, k);
    CbcAppends(E, Encrypt, iv, m[..k], PadBlockOf(m[k..]));
  }

  /** A partial block with its padding. */
  function PadBlockOf(d: seq<Byte>): Block
    requires |d| < 16
  {
    d + Repeat(ByteOf(16 - |d|), 16 - |d|)
  }

  lemma PadSplits(m: seq<Byte>, k: nat)
    requires k == Ready(Encrypt, |m|)
    ensures Pad(m) == m[..k] + PadBlockOf(m[k..])
  {
    assert PadLength(|m|) == 16 - |m[k..]|;
    assert m == m[..k] + m[k..];
  }

  /** What finish returns when decrypting: the last block's data. */
  function Unpadded(D: Cipher, l: Layer, n: nat): (r: seq<Byte>)
    requires |l.cache| == 16 && n <= 16
  {
    CbcDecrypt(D, l.iv, l.cache)[..n]
  }

  /** Decrypting the ciphertext of a message in any pieces gives the message back. */
  lemma DecryptAnyChunking(E: Cipher, D: Cipher, iv: Block, m: seq<Byte>, chunks: seq<seq<Byte>>)
    requires forall b: Block :: D(E(b)) == b
    requires Concat(chunks) == CbcEncrypt(E, iv, Pad(m))
    ensures var l := UpdatedAll(D, Decrypt, Layer(iv, []), chunks);
            && |l.cache| == 16
            && IsPadded(CbcDecrypt(D, l.iv, l.cache), |m| % 16)
            && OutputAll(D, Decrypt, Layer(iv, []), chunks) + Unpadded(D, l, |m| % 16) == m
  {
    hide CbcEncrypt, CbcDecrypt, NextIv, Pad, Updated, Output, OutputAll, UpdatedAll, Concat, IsPadded;
    var c := CbcEncrypt(E, iv, Pad(m));
    ChunkingIsInvisible(D, Decrypt, Layer(iv, []), chunks);
    var k := |c| - 16;
    WholeCiphertext(D, iv, c);
    CbcUndone(E, D, iv, Pad(m));
    SplitAt(c, k);
    CbcAppends(D, Decrypt, iv, c[..k], c[k..]);
    PaddedTail(m, k, CbcDecrypt(D, iv, c[..k]), CbcDecrypt(D, CbcIv(D, Decrypt, iv, c[..k]), c[k..]));
  }

  /** Decrypting whole blocks keeps the last one back. */
  lemma WholeCiphertext(D: Cipher, iv: Block, c: seq<Byte>)
    requires |c| % 16 == 0 && c != []
    ensures var l, k := Layer(iv, []), |c| - 16;
            && Output(D, Decrypt, l, c) == Cbc(D, Decrypt, iv, c[..k])
            && Updated(D, Decrypt, l, c) == Layer(CbcIv(D, Decrypt, iv, c[..k]), c[k..])
  {
    hide Cbc, CbcIv, Ready;
    LastBlockKept(|c|);
    assert [] + c == c;
  }

  lemma LastBlockKept(n: nat)
    requires n % 16 == 0 && n > 0
    ensures Ready(Decrypt, n) == n - 16
  {}

  lemma PaddedTail(m: seq<Byte>, k: nat, front: seq<Byte>, last: Block)
    requires k == |Pad(m)| - 16 && |front| == k && front + last == Pad(m)
    ensures IsPadded(last, |m| % 16)
    ensures front + last[..|m| % 16] == m
  {
    hide ByteOf;
    var n := |m| % 16;
    assert k == |m| - n;
    assert last == Pad(m)[k..];
    assert last == m[k..] + Repeat(ByteOf(16 - n), 16 - n);
    assert last[..n] == m[k..] && front == m[..k];
  }

  // ---------- The context ----------

  /** Copies a string into the array from a place on. */
  method CopyInto(a: array<Byte>, at: nat, s: seq<Byte>)
    requires at + |s| <= a.Length
    modifies a
    ensures a[..] == old(a[..at]) + s + old(a[at + |s|..])
  {
    forall i | 0 <= i < |s| { a[at + i] := s[i]; }
    assert a[at..at + |s|] == s;
    assert a[..] == a[..at] + a[at..at + |s|] + a[at + |s|..];
  }

  method CopyFront(a: array<Byte>, s: seq<Byte>)
    requires |s| <= a.Length
    modifies a
    ensures a[..|s|] == s
  {
    CopyInto(a, 0, s);
    assert a[..|s|] == a[..][..|s|];
  }

  /** How many bytes of a non-empty rest an update caches. */
  function TailLength(op: Mode, n: nat): (t: nat)
    ensures t <= n && t <= 16 && (n - t) % 16 == 0 && (op == Encrypt ==> t < 16)
  {
    if op == Decrypt && n % 16 == 0 && n > 0 then 16 else n % 16
  }

  lemma TailCases(op: Mode, n: nat)
    ensures n == 0 ==> TailLength(op, n) == 0
    ensures n > 0 ==> TailLength(op, n) == if n % 16 == 0 && op == Decrypt then 16 else n % 16
  {}

  lemma ReadyTail(op: Mode, h: nat, r: nat)
    requires h % 16 == 0 && (op == Decrypt ==> r > 0)
    ensures Ready(op, h + r) == h + (r - TailLength(op, r))
  {}

  /** An update as the code does it: the completed cached block, then the whole blocks, then the tail. */
  lemma UpdateParts(f: Cipher, op: Mode, l: Layer, input: seq<Byte>, head: seq<Byte>, rest: seq<Byte>)
    requires l.cache + input == head + rest
    requires |head| % 16 == 0 && (op == Decrypt ==> |rest| > 0)
    ensures var k := |rest| - TailLength(op, |rest|);
            && Output(f, op, l, input) == Cbc(f, op, l.iv, head) + Cbc(f, op, CbcIv(f, op, l.iv, head), rest[..k])
            && Updated(f, op, l, input) == Layer(CbcIv(f, op, CbcIv(f, op, l.iv, head), rest[..k]), rest[k..])
  {
    hide Cbc, CbcIv, Ready, TailLength;
    var k := |rest| - TailLength(op, |rest|);
    ReadyTail(op, |head|, |rest|);
    var all := l.cache + input;
    assert all[..|head| + k] == head + rest[..k] && all[|head| + k..] == rest[k..];
    CbcAppends(f, op, l.iv, head, rest[..k]);
  }

  lemma UpdateCaches(f: Cipher, op: Mode, l: Layer, input: seq<Byte>)
    requires if op == Encrypt then |l.cache| + |input| < 16 else |l.cache| + |input| <= 16
    ensures Output(f, op, l, input) == []
    ensures Updated(f, op, l, input) == Layer(l.iv, l.cache + input)
  {
    hide Cbc, CbcIv;
    var all := l.cache + input;
    assert Ready(op, |all|) == 0 && all[..0] == [] && all[0..] == all;
    CbcNone(f, op, l.iv);
  }

  class Context {
    /** The block operation of the keyed cipher in the direction of `op`. */
    const f: Cipher
    const op: Mode
    const padding: Padding
    const iv: array<Byte>
    const unprocessedData: array<Byte>
    var unprocessedLen: nat

    ghost predicate Valid()
      reads this
    {
      && iv.Length == unprocessedData.Length == 16 && iv != unprocessedData
      && (if op == Encrypt then unprocessedLen < 16 else unprocessedLen <= 16)
    }

    ghost function State(): (l: Layer)
      reads this, iv, unprocessedData
      requires Valid()
    {
      Layer(iv[..], unprocessedData[..unprocessedLen])
    }

    constructor (f: Cipher, op: Mode, padding: Padding, iv: Block)
      ensures Valid() && State() == Layer(iv, [])
      ensures this.f == f && this.op == op && this.padding == padding
      ensures fresh(this.iv) && fresh(unprocessedData)
    {
      this.f, this.op, this.padding := f, op, padding;
      var a, b := new Byte[16](_ => 0), new Byte[16](_ => 0);
      Put(a, iv);
      this.iv, unprocessedData, unprocessedLen := a, b, 0;
    }

    /** The CBC branch of mbedtls_cipher_update */
    method Update(input: seq<Byte>) returns (ret: int, output: seq<Byte>)
      requires Valid()
      modifies this, iv, unprocessedData
      ensures Valid() && ret == 0
      ensures output == Output(f, op, old(State()), input)
      ensures State() == Updated(f, op, old(State()), input)
    {
      hide Cbc, CbcIv, Output, Updated;
      ghost var l := State();
      output := [];
      if (op == Decrypt && |input| + unprocessedLen <= 16) || (op == Encrypt && |input| + unprocessedLen < 16) {
        UpdateCaches(f, op, l, input);
        CopyInto(unprocessedData, unprocessedLen, input);
        unprocessedLen := unprocessedLen + |input|;
        return 0, output;
      }
      CbcNone(f, op, l.iv);
      var rest := input;
      ghost var head := [];
      if unprocessedLen != 0 {
        var copyLen := 16 - unprocessedLen;
        head := l.cache + input[..copyLen];
        CopyInto(unprocessedData, unprocessedLen, input[..copyLen]);
        assert unprocessedData[..] == head;
        ret, output := CryptCbc(f, op, iv, unprocessedData[..]);
        unprocessedLen := 0;
        rest := input[copyLen..];
      }
      assert l.cache + input == head + rest;
      UpdateParts(f, op, l, input, head, rest);
      CbcNone(f, op, iv[..]);
      rest := CacheTail(rest);
      if rest != [] {
        var out;
        ret, out := CryptCbc(f, op, iv, rest);
        output := output + out;
      }
      return 0, output;
    }

    /** Caching the final, incomplete block; when decrypting, the last block even if it is whole. */
    method CacheTail(input: seq<Byte>) returns (rest: seq<Byte>)
      requires Valid() && unprocessedLen == 0
      modifies this`unprocessedLen, unprocessedData
      ensures Valid()
      ensures var k := |input| - TailLength(op, |input|);
              && rest == input[..k] && unprocessedData[..unprocessedLen] == input[k..]
    {
      rest := input;
      TailCases(op, |input|);
      hide TailLength;
      if |input| != 0 {
        var copyLen := |input| % 16;
        if copyLen == 0 && op == Decrypt {
          copyLen := 16;
        }
        CopyFront(unprocessedData, input[|input| - copyLen..]);
        unprocessedLen := unprocessedLen + copyLen;
        rest := input[..|input| - copyLen];
      }
    }

    /** The CBC branch of mbedtls_cipher_finish */
    method Finish() returns (ret: int, output: seq<Byte>)
      requires Valid()
      modifies iv, unprocessedData
      ensures op == Encrypt && padding == Pkcs7 ==>
                ret == 0 && output == CbcEncrypt(f, old(State()).iv, PadBlockOf(old(State()).cache))
      ensures op == Encrypt && padding == NoPadding ==>
                output == [] && ret == if unprocessedLen == 0 then 0 else FULL_BLOCK_EXPECTED
      ensures op == Decrypt && unprocessedLen < 16 ==>
                output == [] && ret == if padding == NoPadding && unprocessedLen == 0 then 0 else FULL_BLOCK_EXPECTED
      ensures op == Decrypt && unprocessedLen == 16 ==>
                var last := CbcDecrypt(f, old(State()).iv, old(State()).cache);
                if padding == NoPadding then ret == 0 && output == last else Stripped(last, ret, output)
    {
      hide CbcEncrypt, CbcDecrypt, CbcIv, IsPadded, ByteOf, Stripped;
      output := [];
      if op == Encrypt {
        if padding == NoPadding {
          ret := if unprocessedLen != 0 then FULL_BLOCK_EXPECTED else 0;
          return;
        }
        AddPkcsPadding(unprocessedData, unprocessedLen);
      } else if unprocessedLen != 16 {
        ret := if padding == NoPadding && unprocessedLen == 0 then 0 else FULL_BLOCK_EXPECTED;
        return;
      }
      assert op == Decrypt ==> unprocessedData[..] == old(State()).cache;
      ret, output := CryptCbc(f, op, iv, unprocessedData[..]);
      if op == Decrypt && padding == Pkcs7 {
        ret, output := RemovePadding(output);
      }
    }
  }

  /** The data of a padded block, and an error and the whole block for any other. */
  ghost predicate Stripped(last: Block, ret: int, output: seq<Byte>) {
    && (forall n: nat :: IsPadded(last, n) ==> n < 16 && ret == 0 && output == last[..n])
    && ((forall n: nat :: !IsPadded(last, n)) ==> ret == INVALID_PADDING && output == last)
  }

  /** The decrypted last block without its padding. */
  method RemovePadding(last: Block) returns (ret: int, output: seq<Byte>)
    ensures Stripped(last, ret, output)
  {
    hide IsPadded;
    var n;
    output := last;
    ret, n := GetPkcsPadding(last);
    if ret == 0 {
      PaddedLess(last, n);
      output := last[..n];
    }
  }

  lemma PaddedLess(b: Block, n: nat)
    requires IsPadded(b, n)
    ensures n < 16
  {}
}

/** The layer over AES itself. */
module AesCbc {
  import opened BlockCipher
  import opened Bytes
  import BlockModes
  import CipherLayer
  import Aes

  /** For every AES key, IV and message, and any cut of the ciphertext, decryption restores the message. */
  lemma RoundTrip(key: seq<Byte>, iv: Block, m: seq<Byte>, chunks: seq<seq<Byte>>)
    requires |key| == 16 || |key| == 24 || |key| == 32
    requires Concat(chunks) ==
             BlockModes.CbcEncrypt((b: Block) => Aes.EncryptBlock(key, b), iv, CipherLayer.Pad(m))
    ensures var D := (b: Block) => Aes.DecryptBlock(key, b);
            var l := CipherLayer.UpdatedAll(D, Decrypt, CipherLayer.Layer(iv, []), chunks);
            && |l.cache| == 16
            && CipherLayer.IsPadded(BlockModes.CbcDecrypt(D, l.iv, l.cache), |m| % 16)
            && CipherLayer.OutputAll(D, Decrypt, CipherLayer.Layer(iv, []), chunks)
               + CipherLayer.Unpadded(D, l, |m| % 16) == m
  {
    hide Aes.EncryptBlock, Aes.DecryptBlock, BlockModes.CbcEncrypt, BlockModes.CbcDecrypt;
    hide CipherLayer.UpdatedAll, CipherLayer.OutputAll, CipherLayer.IsPadded, CipherLayer.Pad, CipherLayer.Unpadded;
    hide Concat;
    var E := (b: Block) => Aes.EncryptBlock(key, b);
    var D := (b: Block) => Aes.DecryptBlock(key, b);
    forall b: Block ensures D(E(b)) == b {
      Aes.DecryptUndoesEncrypt(key, b);
    }
    CipherLayer.DecryptAnyChunking(E, D, iv, m, chunks);
  }
}
