/** Definitions several modules share. */
module Basics {

  /** A byte as a number, for the code that never combines bits. */
  type Octet = n: nat | n < 256

  datatype Option<T> = None | Some(value: T)

  function Min(a: int, b: int): int { if a < b then a else b }

  // Facts about sequences, stated for any elements so that nothing about the elements is looked at.

  lemma Reassociate<T>(a: seq<T>, b: seq<T>, c: seq<T>)
    ensures (a + b) + c == a + (b + c) && (b == [] ==> a + b == a) && a + [] == a
  {}

  lemma SplitAt<T>(s: seq<T>, k: nat)
    requires k <= |s|
    ensures s == s[..k] + s[k..]
  {}

  lemma TakeOne<T>(s: seq<T>)
    requires s != []
    ensures s[..1] == [s[0]]
  {}
}
