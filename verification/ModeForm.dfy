/**
 * The modes of NIST SP 800-38A place by place: what each block or byte of the output is, by its own
 * position and the ciphertext before it.
 */
module ModeForm {
  import opened Basics
  import opened BlockCipher
  import opened Bytes
  import opened BlockModes
  import opened CipherLayer
  import opened Counter

  // ---------- CBC, section 6.2 ----------

  /** Block j of a string of whole blocks. */
  function BlockAt(s: seq<Byte>, j: nat): Block
    requires 16 * j + 16 <= |s|
  {
    s[16 * j..16 * j + 16]
  }

  /** The block before block j, which is the IV for the first. */
  function Before(iv: Block, c: seq<Byte>, j: nat): Block
    requires 16 * j <= |c|
  {
    if j == 0 then iv else BlockAt(c, j - 1)
  }

  lemma BeforeLater(iv: Block, b: Block, rest: seq<Byte>, j: nat)
    requires 0 < j && 16 * j <= 16 + |rest|
    ensures Before(iv, b + rest, j) == Before(b, rest, j - 1)
  {}

  /** C_j = E(P_j + C_(j-1)) */
  lemma {:induction false} CbcEncryptedBlock(E: Cipher, iv: Block, p: seq<Byte>, j: nat)
    requires |p| % 16 == 0 && 16 * j + 16 <= |p|
    ensures var c := CbcEncrypt(E, iv, p); BlockAt(c, j) == E(Xor(BlockAt(p, j), Before(iv, c, j)))
    decreases |p|
  {
    hide Xor;
    var c := E(Xor(p[..16], iv));
    var rest := CbcEncrypt(E, c, p[16..]);
    assert CbcEncrypt(E, iv, p) == c + rest && p == p[..16] + p[16..];
    if j > 0 {
      CbcEncryptedBlock(E, c, p[16..], j - 1);
      assert BlockAt(c + rest, j) == BlockAt(rest, j - 1) && BlockAt(p, j) == BlockAt(p[16..], j - 1);
      BeforeLater(iv, c, rest, j);
    }
  }

  /** P_j = D(C_j) + C_(j-1) */
  lemma {:induction false} CbcDecryptedBlock(D: Cipher, iv: Block, c: seq<Byte>, j: nat)
    requires |c| % 16 == 0 && 16 * j + 16 <= |c|
    ensures BlockAt(CbcDecrypt(D, iv, c), j) == Xor(D(BlockAt(c, j)), Before(iv, c, j))
    decreases |c|
  {
    hide Xor;
    var p := Xor(D(c[..16]), iv);
    var rest := CbcDecrypt(D, c[..16], c[16..]);
    assert CbcDecrypt(D, iv, c) == p + rest;
    if j > 0 {
      CbcDecryptedBlock(D, c[..16], c[16..], j - 1);
      assert BlockAt(p + rest, j) == BlockAt(rest, j - 1) && BlockAt(c, j) == BlockAt(c[16..], j - 1);
      assert Before(iv, c, j) == Before(c[..16], c[16..], j - 1);
    }
  }

  // ---------- CFB with 128-bit segments, section 6.3 ----------

  /** Byte i is masked with the encryption of the ciphertext block before it. */
  lemma {:induction false} CfbByteAt(E: Cipher, iv: Block, p: seq<Byte>, i: nat)
    requires i < |p|
    ensures var c := CfbBlocks(E, iv, p);
            |c| == |p| && c[i] == XorByte(E(Before(iv, c, i / 16))[i % 16], p[i])
    decreases |p|
  {
    hide XorByte;
    if |p| > 16 {
      var c := Xor(E(iv), p[..16]);
      var rest := CfbBlocks(E, c, p[16..]);
      assert CfbBlocks(E, iv, p) == c + rest;
      CfbByteAt(E, c, p[16..], if i < 16 then 0 else i - 16);
      if i >= 16 {
        hide Xor, CfbBlocks;
        assert (i - 16) / 16 == i / 16 - 1 && (i - 16) % 16 == i % 16;
        BeforeLater(iv, c, rest, i / 16);
        assert (c + rest)[i] == rest[i - 16] && p[16..][i - 16] == p[i];
      }
    }
  }

  /** So is every byte CFB128 encryption writes from a block boundary on. */
  lemma Cfb128ByteAt(E: Cipher, iv: Block, p: seq<Byte>, i: nat)
    requires i < |p|
    ensures var c := Outputs(Cfb(E, Encrypt), CfbState(iv, 0), p);
            c[i] == XorByte(E(Before(iv, c, i / 16))[i % 16], p[i])
  {
    hide CfbBlocks, Outputs, XorByte;
    CfbIsBlockwise(E, iv, p);
    CfbByteAt(E, iv, p, i);
  }

  // ---------- CFB with 8-bit segments ----------

  lemma WindowStep(iv: Block, x: Byte, rest: seq<Byte>, i: nat)
    requires i < |rest|
    ensures (iv + ([x] + rest))[i + 1..i + 17] == ((iv[1..] + [x]) + rest)[i..i + 16]
  {
    var a, b := iv + ([x] + rest), (iv[1..] + [x]) + rest;
    assert a[1..] == b;
    assert a[1..][i..i + 16] == a[i + 1..i + 17];
  }

  /** Byte i is masked with the first byte of the encryption of the sixteen bytes before it. */
  lemma {:induction false} Cfb8ByteAt(E: Cipher, iv: Block, p: seq<Byte>, i: nat)
    requires i < |p|
    ensures var c := Outputs(Cfb8(E, Encrypt), Cfb8State(iv), p);
            c[i] == XorByte(E((iv + c)[i..i + 16])[0], p[i])
    decreases |p|
  {
    hide XorByte;
    var x := XorByte(E(iv)[0], p[0]);
    var next := Cfb8State(iv[1..] + [x]);
    assert Cfb8(E, Encrypt)(Cfb8State(iv), p[0]) == (next, x);
    var rest := Outputs(Cfb8(E, Encrypt), next, p[1..]);
    assert Outputs(Cfb8(E, Encrypt), Cfb8State(iv), p) == [x] + rest;
    if i == 0 {
      assert (iv + ([x] + rest))[0..16] == iv;
    } else {
      Cfb8ByteAt(E, next.iv, p[1..], i - 1);
      WindowStep(iv, x, rest, i - 1);
    }
  }

  // ---------- CTR, section 6.5 ----------

  function SuccBy(t: Block, k: nat): Block
    decreases k
  {
    if k == 0 then t else Succ(SuccBy(t, k - 1))
  }

  lemma {:induction false} SuccFirst(t: Block, k: nat)
    ensures SuccBy(Succ(t), k) == SuccBy(t, k + 1)
    decreases k
  {
    hide Succ;
    if k > 0 {
      SuccFirst(t, k - 1);
    }
  }

  lemma {:induction false} CtrBlocksAt(E: Cipher, t: Block, p: seq<Byte>, i: nat)
    requires i < |p|
    ensures var c := CtrBlocks(E, t, p); |c| == |p| && c[i] == XorByte(p[i], E(SuccBy(t, i / 16))[i % 16])
    decreases |p|
  {
    hide XorByte, Succ;
    if |p| > 16 {
      CtrBlocksAt(E, Succ(t), p[16..], if i < 16 then 0 else i - 16);
      if i >= 16 {
        assert (i - 16) / 16 == i / 16 - 1 && (i - 16) % 16 == i % 16;
        SuccFirst(t, i / 16 - 1);
      }
    }
  }

  lemma {:induction false} SuccByCounts(t: Block, k: nat)
    ensures Value(SuccBy(t, k)) == (Value(t) + k) % Pow256(16)
    decreases k
  {
    hide Succ, Value, Pow256;
    if k == 0 {
      ValueBound(t);
      WrapIsMod(Value(t), Pow256(16));
    } else {
      SuccByCounts(t, k - 1);
      SuccCounts(SuccBy(t, k - 1));
      ModStep(Value(t) + k - 1, Pow256(16));
    }
  }

  lemma ModStep(n: nat, m: nat)
    requires m > 0
    ensures (n + 1) % m == if n % m + 1 == m then 0 else n % m + 1
  {
    var q, r, q', r' := n / m, n % m, (n + 1) / m, (n + 1) % m;
    assert n == m * q + r && n + 1 == m * q' + r';
    assert m * (q' - q) == r + 1 - r';
    SmallMultiple(m, q' - q);
  }

  /** A multiple of m between -m and m is zero, and one up to m is zero or m. */
  lemma SmallMultiple(m: int, d: int)
    requires m > 0 && -m < m * d <= m
    ensures d == 0 || d == 1
  {}

  /** Byte i is masked with the encryption of the counter i / 16 after the first, modulo 2^128. */
  lemma CtrByteAt(E: Cipher, t: Block, stream: Block, p: seq<Byte>, i: nat, counter: Block)
    requires i < |p| && Value(counter) == (Value(t) + i / 16) % Pow256(16)
    ensures Outputs(Ctr(E), CtrState(t, stream, 0), p)[i] == XorByte(p[i], E(counter)[i % 16])
  {
    hide CtrBlocks, Outputs, XorByte, SuccBy, Value, Pow256;
    CtrIsBlockwise(E, t, stream, p);
    CtrBlocksAt(E, t, p, i);
    SuccByCounts(t, i / 16);
    BigEndianOfValue(counter);
    BigEndianOfValue(SuccBy(t, i / 16));
  }

  // ---------- PKCS7, section 6.3 of RFC 5652 ----------

  /** Between one and sixteen bytes are added, each of them their number. */
  lemma PaddedBytes(m: seq<Byte>, i: nat)
    requires |m| <= i < |Pad(m)|
    ensures |Pad(m)| % 16 == 0 && 1 <= |Pad(m)| - |m| <= 16 && Pad(m)[..|m|] == m
    ensures Pad(m)[i] as nat == |Pad(m)| - |m|
  {
    hide ByteOf;
  }
}
