/**
 * mtcp/util/rss.c: receive-side scaling. Unsigned integers are bit strings, most significant bit
 * first, so that shifting out the top bit is dropping the first element.
 */
module Rss {

  type Bits = seq<bool>

  function Zeros(n: nat): Bits { seq(n, _ => false) }

  function Xor(a: Bits, b: Bits): (r: Bits)
    requires |a| == |b|
    ensures |r| == |a|
  {
    seq(|a|, i requires 0 <= i < |a| => a[i] != b[i])
  }

  function ShiftLeft(w: Bits, low: bool): Bits
    requires w != []
  {
    w[1..] + [low]
  }

  lemma XorLaws(a: Bits, b: Bits, c: Bits)
    requires |a| == |b| == |c|
    ensures Xor(Xor(a, b), c) == Xor(a, Xor(b, c)) && Xor(a, b) == Xor(b, a) && Xor(a, Zeros(|a|)) == a
  {}

  lemma XorSwap(a: Bits, b: Bits, c: Bits, d: Bits)
    requires |a| == |b| == |c| == |d|
    ensures Xor(Xor(a, b), Xor(c, d)) == Xor(Xor(a, c), Xor(b, d))
  {}

  // ---------- Keys and windows ----------

  type Key = seq<Bits>

  predicate IsKey(key: Key) { |key| == 40 && forall i :: 0 <= i < 40 ==> |key[i]| == 8 }

  const KEY_BITS := 320

  function KeyBit(key: Key, i: nat): bool
    requires IsKey(key) && i < KEY_BITS
  {
    key[i / 8][i % 8]
  }

  /** The 32 key bits from bit i on. */
  function Window(key: Key, i: nat): (w: Bits)
    requires IsKey(key) && i + 32 <= KEY_BITS
    ensures |w| == 32
  {
    seq(32, j requires 0 <= j < 32 => KeyBit(key, i + j))
  }

  lemma WindowSlides(key: Key, i: nat)
    requires IsKey(key) && i + 33 <= KEY_BITS
    ensures Window(key, i + 1) == ShiftLeft(Window(key, i), KeyBit(key, i + 32))
  {}

  lemma FirstWindow(key: Key)
    requires IsKey(key)
    ensures key[0] + key[1] + key[2] + key[3] == Window(key, 0)
  {
    var w := key[0] + key[1] + key[2] + key[3];
    forall j | 0 <= j < 32 ensures w[j] == Window(key, 0)[j] {
      if j < 8 {
        assert j / 8 == 0 && j % 8 == j;
      } else if j < 16 {
        assert j / 8 == 1 && j % 8 == j - 8;
      } else if j < 24 {
        assert j / 8 == 2 && j % 8 == j - 16;
      } else {
        assert j / 8 == 3 && j % 8 == j - 24;
      }
    }
  }

  /** Entry i of the cache is the window at bit i. */
  method BuildKeyCache(key: Key, cache: array<Bits>)
    requires IsKey(key) && cache.Length + 32 <= KEY_BITS
    modifies cache
    ensures forall i :: 0 <= i < cache.Length ==> cache[i] == Window(key, i)
  {
    hide Window;
    var result, idx := key[0] + key[1] + key[2] + key[3], 32;
    FirstWindow(key);
    var i := 0;
    while i < cache.Length
      invariant 0 <= i <= cache.Length && idx == i + 32
      invariant result == Window(key, i)
      invariant forall k :: 0 <= k < i ==> cache[k] == Window(key, k)
    {
      cache[i] := result;
      WindowSlides(key, i);
      result := ShiftLeft(result, KeyBit(key, idx));
      i, idx := i + 1, idx + 1;
    }
  }

  // ---------- The hash ----------

  /** XOR of the windows at the positions, counted from from, where the input has a one. */
  function Toeplitz(input: Bits, key: Key, from: nat): (h: Bits)
    requires IsKey(key) && from + |input| + 31 <= KEY_BITS
    ensures |h| == 32
  {
    if input == [] then Zeros(32)
    else Xor(if input[0] then Window(key, from) else Zeros(32), Toeplitz(input[1..], key, from + 1))
  }

  /** Parity of the key bits from at on that stand at the ones of the input. */
  function Parity(input: Bits, key: Key, at: nat): bool
    requires IsKey(key) && at + |input| <= KEY_BITS
  {
    if input == [] then false else (input[0] && KeyBit(key, at)) != Parity(input[1..], key, at + 1)
  }

  /** The hash is the product of the input with the key's Toeplitz matrix: row j is the key from bit j. */
  lemma {:induction false} HashIsMatrixProduct(input: Bits, key: Key, from: nat, j: nat)
    requires IsKey(key) && from + |input| + 31 <= KEY_BITS && j < 32
    ensures Toeplitz(input, key, from)[j] == Parity(input, key, from + j)
    decreases |input|
  {
    if input != [] {
      HashIsMatrixProduct(input[1..], key, from + 1, j);
    }
  }

  lemma {:induction false} ToeplitzAppends(a: Bits, b: Bits, key: Key, from: nat)
    requires IsKey(key) && from + |a| + |b| + 31 <= KEY_BITS
    ensures Toeplitz(a + b, key, from) == Xor(Toeplitz(a, key, from), Toeplitz(b, key, from + |a|))
    decreases |a|
  {
    hide Window, Xor;
    var t := Toeplitz(b, key, from + |a|);
    if a == [] {
      assert a + b == b;
      XorLaws(t, Zeros(32), t);
      XorLaws(Zeros(32), t, t);
    } else {
      assert (a + b)[1..] == a[1..] + b;
      ToeplitzAppends(a[1..], b, key, from + 1);
      XorLaws(if a[0] then Window(key, from) else Zeros(32), Toeplitz(a[1..], key, from + 1), t);
    }
  }

  /** Hashing is linear over XOR. */
  lemma {:induction false} ToeplitzLinear(a: Bits, b: Bits, key: Key, from: nat)
    requires IsKey(key) && |a| == |b| && from + |a| + 31 <= KEY_BITS
    ensures Toeplitz(Xor(a, b), key, from) == Xor(Toeplitz(a, key, from), Toeplitz(b, key, from))
    decreases |a|
  {
    if a == [] {
      assert Xor(Zeros(32), Zeros(32)) == Zeros(32);
    } else {
      assert Xor(a, b)[1..] == Xor(a[1..], b[1..]);
      ToeplitzLinear(a[1..], b[1..], key, from + 1);
      HeadLinear(a, b, key, from);
    }
  }

  lemma HeadLinear(a: Bits, b: Bits, key: Key, from: nat)
    requires IsKey(key) && |a| == |b| && a != [] && from + |a| + 31 <= KEY_BITS
    requires Toeplitz(Xor(a[1..], b[1..]), key, from + 1)
             == Xor(Toeplitz(a[1..], key, from + 1), Toeplitz(b[1..], key, from + 1))
    ensures Toeplitz(Xor(a, b), key, from) == Xor(Toeplitz(a, key, from), Toeplitz(b, key, from))
  {
    var w, z := Window(key, from), Zeros(32);
    var ta, tb := Toeplitz(a[1..], key, from + 1), Toeplitz(b[1..], key, from + 1);
    assert Xor(a, b)[1..] == Xor(a[1..], b[1..]);
    assert Xor(a, b)[0] == (a[0] != b[0]);
    assert Xor(w, w) == z && Xor(z, z) == z && Xor(w, z) == w && Xor(z, w) == w;
    XorSwap(if a[0] then w else z, ta, if b[0] then w else z, tb);
  }

  datatype Flow = Flow(sip: Bits, dip: Bits, sp: Bits, dp: Bits)

  predicate IsFlow(f: Flow) { |f.sip| == |f.dip| == 32 && |f.sp| == |f.dp| == 16 }

  function Reversed(f: Flow): Flow { Flow(f.dip, f.sip, f.dp, f.sp) }

  /** The hash of the four fields laid end to end. */
  function Hash(key: Key, f: Flow): (h: Bits)
    requires IsKey(key) && IsFlow(f)
    ensures |h| == 32
  {
    Toeplitz(f.sip + f.dip + f.sp + f.dp, key, 0)
  }

  lemma HashParts(key: Key, f: Flow)
    requires IsKey(key) && IsFlow(f)
    ensures Hash(key, f) == Xor(Xor(Xor(Toeplitz(f.sip, key, 0), Toeplitz(f.dip, key, 32)),
                                    Toeplitz(f.sp, key, 64)), Toeplitz(f.dp, key, 80))
  {
    hide Toeplitz, Xor;
    ToeplitzAppends(f.sip + f.dip + f.sp, f.dp, key, 0);
    ToeplitzAppends(f.sip + f.dip, f.sp, key, 0);
    ToeplitzAppends(f.sip, f.dip, key, 0);
  }

  /** The XOR of two flows' hashes is the hash of their XOR. */
  lemma HashLinear(key: Key, f: Flow, g: Flow)
    requires IsKey(key) && IsFlow(f) && IsFlow(g)
    ensures Hash(key, Flow(Xor(f.sip, g.sip), Xor(f.dip, g.dip), Xor(f.sp, g.sp), Xor(f.dp, g.dp)))
            == Xor(Hash(key, f), Hash(key, g))
  {
    hide Toeplitz;
    var a, b := f.sip + f.dip + f.sp + f.dp, g.sip + g.dip + g.sp + g.dp;
    assert Xor(a, b) == Xor(f.sip, g.sip) + Xor(f.dip, g.dip) + Xor(f.sp, g.sp) + Xor(f.dp, g.dp);
    ToeplitzLinear(a, b, key, 0);
  }

  /** One of the four loops: shifts the field out bit by bit, adding the cached windows of its ones. */
  method AddField(key: Key, cache: seq<Bits>, field: Bits, from: nat, res: Bits) returns (r: Bits)
    requires IsKey(key) && |cache| == 96 && forall i :: 0 <= i < 96 ==> cache[i] == Window(key, i)
    requires field != [] && from + |field| <= 96 && |res| == 32
    ensures |r| == 32 && r == Xor(res, Toeplitz(field, key, from))
  {
    hide Window, Xor;
    var x, i, n := field, 0, |field|;
    r := res;
    assert field[..0] == [];
    XorLaws(res, res, res);
    while i < n
      invariant 0 <= i <= n && x == field[i..] + Zeros(i) && |r| == 32
      invariant r == Xor(res, Toeplitz(field[..i], key, from))
    {
      OneBit(key, field, from, i, res);
      if x[0] {
        r := Xor(r, cache[from + i]);
      }
      x := ShiftLeft(x, false);
      i := i + 1;
    }
    assert field[..n] == field;
  }

  lemma OneBit(key: Key, field: Bits, from: nat, i: nat, res: Bits)
    requires IsKey(key) && i < |field| && from + |field| + 31 <= KEY_BITS && |res| == 32
    ensures var t := Xor(res, Toeplitz(field[..i], key, from));
            Xor(res, Toeplitz(field[..i + 1], key, from)) == if field[i] then Xor(t, Window(key, from + i)) else t
  {
    hide Window, Xor;
    var t, w := Toeplitz(field[..i], key, from), Window(key, from + i);
    assert field[..i + 1] == field[..i] + [field[i]];
    ToeplitzAppends(field[..i], [field[i]], key, from);
    XorLaws(w, w, w);
    XorLaws(t, t, t);
    XorLaws(Zeros(32), w, w);
    XorLaws(res, t, w);
    assert [field[i]][1..] == [];
    assert Toeplitz([], key, from + i + 1) == Zeros(32);
  }

  method GetRssHash(key: Key, f: Flow) returns (res: Bits)
    requires IsKey(key) && IsFlow(f)
    ensures |res| == 32 && res == Hash(key, f)
  {
    var keyCache := new Bits[96](_ => []);
    BuildKeyCache(key, keyCache);
    var cache := keyCache[..];
    hide Toeplitz, Window, Xor;
    res := Zeros(32);
    var t := res;
    res := AddField(key, cache, f.sip, 0, res);
    XorLaws(Toeplitz(f.sip, key, 0), t, t);
    XorLaws(t, Toeplitz(f.sip, key, 0), t);
    res := AddField(key, cache, f.dip, 32, res);
    res := AddField(key, cache, f.sp, 64, res);
    res := AddField(key, cache, f.dp, 80, res);
    HashParts(key, f);
  }

  // ---------- Both directions of a connection ----------

  predicate SameAt(key: Key, a: nat, b: nat, i: nat)
    requires IsKey(key) && a + i + 32 <= KEY_BITS && b + i + 32 <= KEY_BITS
  {
    Window(key, a + i) == Window(key, b + i)
  }

  /** The windows used for the two addresses agree, and so do those for the two ports. */
  predicate HalvesAgree(key: Key)
    requires IsKey(key)
  {
    (forall i :: 0 <= i < 32 ==> SameAt(key, 0, 32, i)) && (forall i :: 0 <= i < 16 ==> SameAt(key, 64, 80, i))
  }

  lemma {:induction false} SameWindowsSameHash(input: Bits, key: Key, a: nat, b: nat)
    requires IsKey(key) && a + |input| + 31 <= KEY_BITS && b + |input| + 31 <= KEY_BITS
    requires forall i :: 0 <= i < |input| ==> SameAt(key, a, b, i)
    ensures Toeplitz(input, key, a) == Toeplitz(input, key, b)
    decreases |input|
  {
    hide Window, Xor;
    if input != [] {
      assert SameAt(key, a, b, 0);
      var a', b' := a + 1, b + 1;
      forall i | 0 <= i < |input[1..]| ensures SameAt(key, a', b', i) {
        assert SameAt(key, a, b, 1 + i);
      }
      SameWindowsSameHash(input[1..], key, a', b');
    }
  }

  function Unit(n: nat, i: nat): Bits
    requires i < n
  {
    Zeros(i) + [true] + Zeros(n - i - 1)
  }

  lemma {:induction false} HashOfZeros(n: nat, key: Key, from: nat)
    requires IsKey(key) && from + n + 31 <= KEY_BITS
    ensures Toeplitz(Zeros(n), key, from) == Zeros(32)
    decreases n
  {
    if n > 0 {
      assert Zeros(n)[1..] == Zeros(n - 1);
      HashOfZeros(n - 1, key, from + 1);
      XorLaws(Zeros(32), Zeros(32), Zeros(32));
    }
  }

  lemma HashOfUnit(n: nat, i: nat, key: Key, from: nat)
    requires IsKey(key) && i < n && from + n + 31 <= KEY_BITS
    ensures Toeplitz(Unit(n, i), key, from) == Window(key, from + i)
  {
    hide Window, Xor;
    var w, z, tail := Window(key, from + i), Zeros(32), Zeros(n - i - 1);
    assert Unit(n, i) == Zeros(i) + ([true] + tail);
    ToeplitzAppends(Zeros(i), [true] + tail, key, from);
    assert ([true] + tail)[1..] == tail;
    HashOfZeros(i, key, from);
    HashOfZeros(n - i - 1, key, from + i + 1);
    XorLaws(w, z, z);
    XorLaws(z, w, z);
  }

  lemma FourZeros(a: Bits)
    requires |a| == 32
    ensures var z := Zeros(32);
            && Xor(Xor(Xor(a, z), z), z) == a && Xor(Xor(Xor(z, a), z), z) == a
            && Xor(Xor(Xor(z, z), a), z) == a && Xor(Xor(Xor(z, z), z), a) == a
  {}

  /** A flow with a single one, in the source address or port. */
  lemma UnitFlows(key: Key, i: nat)
    requires IsKey(key) && i < 32
    ensures var z, p := Zeros(32), Zeros(16);
            && Hash(key, Flow(Unit(32, i), z, p, p)) == Window(key, i)
            && Hash(key, Flow(z, Unit(32, i), p, p)) == Window(key, 32 + i)
            && (i < 16 ==> Hash(key, Flow(z, z, Unit(16, i), p)) == Window(key, 64 + i)
                           && Hash(key, Flow(z, z, p, Unit(16, i))) == Window(key, 80 + i))
  {
    hide Toeplitz, Window, Xor, Unit, Hash;
    var z, p := Zeros(32), Zeros(16);
    HashOfZeros(32, key, 0);
    HashOfZeros(32, key, 32);
    HashOfZeros(16, key, 64);
    HashOfZeros(16, key, 80);
    UnitLength(32, i);
    HashOfUnit(32, i, key, 0);
    HashOfUnit(32, i, key, 32);
    HashParts(key, Flow(Unit(32, i), z, p, p));
    HashParts(key, Flow(z, Unit(32, i), p, p));
    FourZeros(Window(key, i));
    FourZeros(Window(key, 32 + i));
    if i < 16 {
      UnitLength(16, i);
      HashOfUnit(16, i, key, 64);
      HashOfUnit(16, i, key, 80);
      HashParts(key, Flow(z, z, Unit(16, i), p));
      HashParts(key, Flow(z, z, p, Unit(16, i)));
      FourZeros(Window(key, 64 + i));
      FourZeros(Window(key, 80 + i));
    }
  }

  lemma UnitLength(n: nat, i: nat)
    requires i < n
    ensures |Unit(n, i)| == n
  {}

  lemma HalvesMakeSymmetric(key: Key, f: Flow)
    requires IsKey(key) && IsFlow(f) && HalvesAgree(key)
    ensures Hash(key, Reversed(f)) == Hash(key, f)
  {
    hide Toeplitz, Window, Xor, Hash;
    SameWindowsSameHash(f.sip, key, 0, 32);
    SameWindowsSameHash(f.dip, key, 0, 32);
    SameWindowsSameHash(f.sp, key, 64, 80);
    SameWindowsSameHash(f.dp, key, 64, 80);
    HashParts(key, f);
    HashParts(key, Reversed(f));
    SwapPairs(Toeplitz(f.sip, key, 0), Toeplitz(f.dip, key, 0), Toeplitz(f.sp, key, 64), Toeplitz(f.dp, key, 64));
  }

  lemma SwapPairs(a: Bits, b: Bits, c: Bits, d: Bits)
    requires |a| == |b| == |c| == |d|
    ensures Xor(Xor(Xor(a, b), c), d) == Xor(Xor(Xor(b, a), d), c)
  {}

  /**
   * Every flow hashes like its reverse exactly when the key's windows repeat after 32 bits for the
   * addresses and after 16 for the ports.
   */
  lemma SymmetricExactly(key: Key)
    requires IsKey(key)
    ensures (forall f | IsFlow(f) :: Hash(key, Reversed(f)) == Hash(key, f)) <==> HalvesAgree(key)
  {
    hide Hash, Window, Unit;
    if HalvesAgree(key) {
      forall f | IsFlow(f) ensures Hash(key, Reversed(f)) == Hash(key, f) { HalvesMakeSymmetric(key, f); }
    }
    if forall f | IsFlow(f) :: Hash(key, Reversed(f)) == Hash(key, f) {
      var z, p := Zeros(32), Zeros(16);
      forall i | 0 <= i < 32 ensures SameAt(key, 0, 32, i) {
        UnitLength(32, i);
        UnitFlows(key, i);
        var f := Flow(Unit(32, i), z, p, p);
        assert IsFlow(f) && Reversed(f) == Flow(z, Unit(32, i), p, p);
      }
      forall i | 0 <= i < 16 ensures SameAt(key, 64, 80, i) {
        UnitLength(16, i);
        UnitFlows(key, i);
        var f := Flow(z, z, Unit(16, i), p);
        assert IsFlow(f) && Reversed(f) == Flow(z, z, p, Unit(16, i));
      }
    }
  }

  const FIVE: Bits := [false, false, false, false, false, true, false, true]

  /** The key in use: forty bytes 0x05. */
  function SystemKey(): (key: Key)
    ensures IsKey(key)
  {
    seq(40, _ => FIVE)
  }

  lemma SystemKeyAgrees()
    ensures HalvesAgree(SystemKey())
  {
    hide Window;
    forall i | 0 <= i < 32 ensures SameAt(SystemKey(), 0, 32, i) { SystemWindow(i, i + 32); }
    forall i | 0 <= i < 16 ensures SameAt(SystemKey(), 64, 80, i) { SystemWindow(64 + i, 80 + i); }
  }

  lemma SystemWindow(a: nat, b: nat)
    requires a % 8 == b % 8 && a + 32 <= KEY_BITS && b + 32 <= KEY_BITS
    ensures Window(SystemKey(), a) == Window(SystemKey(), b)
  {
    hide KeyBit, SystemKey;
    var v, w := Window(SystemKey(), a), Window(SystemKey(), b);
    forall j | 0 <= j < 32 ensures v[j] == w[j] {
      SystemBit(a + j);
      SystemBit(b + j);
      SameRemainder(a, b, j);
    }
  }

  lemma SameRemainder(a: nat, b: nat, j: nat)
    requires a % 8 == b % 8
    ensures (a + j) % 8 == (b + j) % 8
  {
    assert (a + j) % 8 == (a % 8 + j) % 8 && (b + j) % 8 == (b % 8 + j) % 8;
  }

  lemma SystemBit(n: nat)
    requires n < KEY_BITS
    ensures KeyBit(SystemKey(), n) == FIVE[n % 8]
  {
    assert n / 8 < 40;
  }

  // ---------- The core ----------

  function Value(b: Bits): nat {
    if b == [] then 0 else 2 * Value(b[..|b| - 1]) + (if b[|b| - 1] then 1 else 0)
  }

  lemma {:induction false} ValueBound(b: Bits, n: nat)
    requires |b| <= n
    ensures Value(b) < Pow2(n)
  {
    if b != [] {
      ValueBound(b[..|b| - 1], n - 1);
    } else if n > 0 {
      ValueBound(b, n - 1);
    }
  }

  function Pow2(n: nat): nat { if n == 0 then 1 else 2 * Pow2(n - 1) }

  const OFF: seq<nat> := [3, 1, 0x1_0000_0000 - 1, 0x1_0000_0000 - 3]

  /** The redirection table, as an addition of unsigned 32-bit integers. */
  function Redirect(masked: nat): nat { (masked + OFF[masked % 4]) % 0x1_0000_0000 }

  /** Redirection reverses each group of four, so it is a bijection on 0..127. */
  lemma RedirectReversesGroups(m: nat)
    requires m < 128
    ensures Redirect(m) == m / 4 * 4 + 3 - m % 4
    ensures Redirect(m) < 128 && Redirect(Redirect(m)) == m
  {
    hide Redirect;
    RedirectInGroup(m / 4, m % 4);
    RedirectInGroup(m / 4, 3 - m % 4);
  }

  lemma RedirectInGroup(q: nat, r: nat)
    requires q < 32 && r < 4
    ensures Redirect(4 * q + r) == 4 * q + 3 - r
  {
    assert (4 * q + r) % 4 == r;
    if r < 2 {
    } else {
      WrapsBack(4 * q + 3 - r);
      assert 4 * q + r + OFF[r] == 4 * q + 3 - r + 0x1_0000_0000;
    }
  }

  lemma WrapsBack(x: nat)
    requires x < 0x1_0000_0000
    ensures (x + 0x1_0000_0000) % 0x1_0000_0000 == x
  {}

  lemma RedirectBijective(m: nat, n: nat)
    requires m < 128 && n < 128
    ensures Redirect(m) == Redirect(n) <==> m == n
  {
    hide Redirect;
    RedirectReversesGroups(m);
    RedirectReversesGroups(n);
  }

  function Core(key: Key, f: Flow, queues: nat): nat
    requires IsKey(key) && IsFlow(f) && queues > 0
  {
    Redirect(Value(Hash(key, f)[25..])) % queues
  }

  /** Bit j of the hash: the parities of the four fields against the key bits from j, 32, 64 and 80 places on. */
  function HashBit(key: Key, f: Flow, j: nat): bool
    requires IsKey(key) && IsFlow(f) && j < 32
  {
    ((Parity(f.sip, key, j) != Parity(f.dip, key, 32 + j)) != Parity(f.sp, key, 64 + j)) != Parity(f.dp, key, 80 + j)
  }

  lemma HashBits(key: Key, f: Flow, j: nat)
    requires IsKey(key) && IsFlow(f) && j < 32
    ensures Hash(key, f)[j] == HashBit(key, f, j)
  {
    hide Toeplitz, Parity;
    HashParts(key, f);
    HashIsMatrixProduct(f.sip, key, 0, j);
    HashIsMatrixProduct(f.dip, key, 32, j);
    HashIsMatrixProduct(f.sp, key, 64, j);
    HashIsMatrixProduct(f.dp, key, 80, j);
  }

  /** The last seven bits of the hash as a number, bit 31 counting one. */
  function LowSeven(key: Key, f: Flow): nat
    requires IsKey(key) && IsFlow(f)
  {
    var bit := (j: nat) requires j < 32 => if HashBit(key, f, j) then 1 else 0;
    64 * bit(25) + 32 * bit(26) + 16 * bit(27) + 8 * bit(28) + 4 * bit(29) + 2 * bit(30) + bit(31)
  }

  lemma {:induction false} ValueAppends(b: Bits, x: bool)
    ensures Value(b + [x]) == 2 * Value(b) + if x then 1 else 0
  {
    assert (b + [x])[..|b|] == b;
  }

  lemma ValueOfSeven(b: Bits)
    requires |b| == 7
    ensures Value(b) == (if b[0] then 64 else 0) + (if b[1] then 32 else 0) + (if b[2] then 16 else 0) +
                        (if b[3] then 8 else 0) + (if b[4] then 4 else 0) + (if b[5] then 2 else 0) +
                        (if b[6] then 1 else 0)
  {
    hide Value;
    NoValue();
    assert b == [] + [b[0]] + [b[1]] + [b[2]] + [b[3]] + [b[4]] + [b[5]] + [b[6]];
    ValueAppends([], b[0]);
    ValueAppends([] + [b[0]], b[1]);
    ValueAppends([] + [b[0]] + [b[1]], b[2]);
    ValueAppends([] + [b[0]] + [b[1]] + [b[2]], b[3]);
    ValueAppends([] + [b[0]] + [b[1]] + [b[2]] + [b[3]], b[4]);
    ValueAppends([] + [b[0]] + [b[1]] + [b[2]] + [b[3]] + [b[4]], b[5]);
    ValueAppends([] + [b[0]] + [b[1]] + [b[2]] + [b[3]] + [b[4]] + [b[5]], b[6]);
  }

  lemma NoValue()
    ensures Value([]) == 0
  {}

  lemma LowSevenIs(key: Key, f: Flow)
    requires IsKey(key) && IsFlow(f)
    ensures Value(Hash(key, f)[25..]) == LowSeven(key, f) < 128
  {
    hide Value, Hash, HashBit;
    ValueOfSeven(Hash(key, f)[25..]);
    HashBits(key, f, 25);
    HashBits(key, f, 26);
    HashBits(key, f, 27);
    HashBits(key, f, 28);
    HashBits(key, f, 29);
    HashBits(key, f, 30);
    HashBits(key, f, 31);
  }

  /** Each byte of the key is 0x05. */
  lemma SystemKeyBytes(i: nat)
    requires i < 40
    ensures SystemKey()[i] == [false, false, false, false, false, true, false, true]
  {}

  /** The core from the last seven bits of the hash, mirrored within groups of four. */
  method GetRssCpuCore(f: Flow, queues: nat) returns (core: nat)
    requires IsFlow(f) && queues > 0
    ensures core == Core(SystemKey(), f, queues) == Core(SystemKey(), Reversed(f), queues)
    ensures var m := LowSeven(SystemKey(), f); core == (m / 4 * 4 + 3 - m % 4) % queues
    ensures core < queues
  {
    hide Hash, LowSeven, Redirect;
    var hash := GetRssHash(SystemKey(), f);
    var masked := Value(hash[25..]);
    LowSevenIs(SystemKey(), f);
    RedirectReversesGroups(masked);
    masked := Redirect(masked);
    core := masked % queues;
    SystemKeyAgrees();
    HalvesMakeSymmetric(SystemKey(), f);
  }

  /** Every flow's entry lies in the table. */
  lemma EntryInTable(key: Key, f: Flow)
    requires IsKey(key) && IsFlow(f)
    ensures Value(Hash(key, f)[25..]) < 128 && Redirect(Value(Hash(key, f)[25..])) < 128
  {
    hide Hash, Redirect, Value;
    ValueBound(Hash(key, f)[25..], 7);
    assert Pow2(7) == 128 by { assert Pow2(3) == 8; }
    RedirectReversesGroups(Value(Hash(key, f)[25..]));
  }
}
