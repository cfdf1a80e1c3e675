/**
 * The big-endian increment written out in src/aes/gcm.c and src/aes/aes.c: add one to the last
 * byte and go on to the one before it only while the byte wraps to zero.
 */
module Counter {
  import opened Bytes

  /** The byte string that counts one further, all 0xFF wrapping to all zero. */
  function Succ(s: seq<Byte>): (r: seq<Byte>)
    ensures |r| == |s|
  {
    if s == [] then []
    else
      var init, last := s[..|s| - 1], s[|s| - 1] + 1;
      if last != 0 then init + [last] else Succ(init) + [0]
  }

  lemma SuccByte(b: Byte)
    ensures (b + 1 == 0) == (b == 0xFF)
    ensures b + 1 != 0 ==> (b + 1) as nat == b as nat + 1
    ensures b + 1 == 0 ==> b as nat == 255
  {}

  /** The carry loop adds one to the number the bytes stand for, modulo their range. */
  lemma {:induction false} SuccCounts(s: seq<Byte>)
    ensures Value(Succ(s)) == if Value(s) + 1 == Pow256(|s|) then 0 else Value(s) + 1
  {
    if s != [] {
      var init, last := s[..|s| - 1], s[|s| - 1];
      var r := Succ(s);
      SuccByte(last);
      SuccCounts(init);
      ValueBound(init);
      assert r[..|r| - 1] == if last + 1 != 0 then init else Succ(init);
      ValueUnfolds(s);
      ValueUnfolds(r);
    }
  }

  lemma ValueUnfolds(s: seq<Byte>)
    requires s != []
    ensures Value(s) == Value(s[..|s| - 1]) * 256 + s[|s| - 1] as nat
    ensures Pow256(|s|) == 256 * Pow256(|s| - 1)
  {}

  lemma SuccIsBigEndian(s: seq<Byte>)
    ensures Succ(s) == BigEndian((Value(s) + 1) % Pow256(|s|), |s|)
  {
    hide Value, Succ, BigEndian, Pow256;
    SuccCounts(s);
    ValueBound(s);
    WrapIsMod(Value(s) + 1, Pow256(|s|));
    BigEndianOfValue(Succ(s));
  }

  lemma WrapIsMod(n: nat, p: nat)
    requires 0 < p && n <= p
    ensures n % p == if n == p then 0 else n
  {}

  /** One step of the carry, the bytes from i on being done. */
  lemma CarryStep(s: seq<Byte>, lo: nat, i: nat, t: seq<Byte>)
    requires lo < i <= |s| && Succ(s[lo..]) == Succ(s[lo..i]) + t
    ensures var b := s[i - 1] + 1;
            && (s[..i] + t)[i - 1] == s[i - 1]
            && (s[..i] + t)[i - 1 := b] == s[..i - 1] + ([b] + t)
            && if b != 0 then s[..i - 1] + ([b] + t) == s[..lo] + Succ(s[lo..])
               else Succ(s[lo..]) == Succ(s[lo..i - 1]) + ([b] + t)
  {
    assert s[lo..i][..i - lo - 1] == s[lo..i - 1];
    if s[i - 1] + 1 != 0 {
      assert s[..i - 1] == s[..lo] + s[lo..i - 1];
    }
  }

  /** Counts the bytes from lo on one further, from the last byte down until one does not overflow. */
  method Increment(a: array<Byte>, lo: nat)
    requires lo <= a.Length
    modifies a
    ensures a[..] == old(a[..lo]) + Succ(old(a[lo..]))
  {
    hide Succ;
    ghost var s, t := a[..], [];
    assert s[..lo] == a[..lo] && s[lo..] == a[lo..] == s[lo..|s|];
    assert s == s[..|s|] + [];
    var i := a.Length;
    while i > lo
      invariant lo <= i <= a.Length == |s|
      invariant a[..] == s[..i] + t
      invariant Succ(s[lo..]) == Succ(s[lo..i]) + t
    {
      CarryStep(s, lo, i, t);
      var b := Bump(a, i - 1);
      if b != 0 {
        return;
      }
      t := [b] + t;
      i := i - 1;
    }
    assert Succ(s[lo..i]) == [];
  }

  method Bump(a: array<Byte>, i: nat) returns (b: Byte)
    requires i < a.Length
    modifies a
    ensures b == old(a[..])[i] + 1
    ensures a[..] == old(a[..])[i := b]
  {
    b := a[i] + 1;
    a[i] := b;
  }
}
