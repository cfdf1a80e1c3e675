/** src/stream_gen/string_matcher.c: the Sunday (quick search) string matcher. */
module StringMatcher {
  import opened Basics

  // ---------- What is searched for ----------

  /** The pattern occurs in the target at position pos. */
  predicate Occurs(t: seq<Octet>, pat: seq<Octet>, pos: int) {
    0 <= pos <= |t| - |pat| && t[pos..pos + |pat|] == pat
  }

  /** r is the index just after the first occurrence, or -1 when there is none. */
  ghost predicate FirstEnd(t: seq<Octet>, pat: seq<Octet>, r: int) {
    if r == -1 then forall p :: !Occurs(t, pat, p)
    else Occurs(t, pat, r - |pat|) && forall p :: Occurs(t, pat, p) ==> r - |pat| <= p
  }

  lemma FirstEndUnique(t: seq<Octet>, pat: seq<Octet>, r: int, r': int)
    requires FirstEnd(t, pat, r) && FirstEnd(t, pat, r')
    ensures r == r'
  {
    if r != -1 {
      assert Occurs(t, pat, r - |pat|);
    }
    if r' != -1 {
      assert Occurs(t, pat, r' - |pat|);
    }
  }

  /** The naive search the matcher must agree with: try every position in turn. */
  function FindEnd(t: seq<Octet>, pat: seq<Octet>): int
    decreases |t|
  {
    if |t| < |pat| then -1
    else if t[..|pat|] == pat then |pat|
    else
      var r := FindEnd(t[1..], pat);
      if r == -1 then -1 else r + 1
  }

  lemma {:induction false} FindEndIsFirst(t: seq<Octet>, pat: seq<Octet>)
    ensures FirstEnd(t, pat, FindEnd(t, pat))
    ensures FindEnd(t, pat) == -1 || |pat| <= FindEnd(t, pat) <= |t|
    decreases |t|
  {
    hide Occurs;
    if |t| < |pat| {
      forall p ensures !Occurs(t, pat, p) {
        NoRoom(t, pat, p);
      }
    } else {
      OccursAtStart(t, pat);
      var r := FindEnd(t, pat);
      if t[..|pat|] == pat {
        forall p | Occurs(t, pat, p) ensures 0 <= p {
          InRange(t, pat, p);
        }
      } else {
        FindEndIsFirst(t[1..], pat);
        if r != -1 {
          OccursShifted(t, pat, r - |pat|);
        }
        forall p | Occurs(t, pat, p) ensures r != -1 && r - |pat| <= p {
          InRange(t, pat, p);
          OccursShifted(t, pat, p);
        }
      }
    }
  }

  lemma NoRoom(t: seq<Octet>, pat: seq<Octet>, p: int)
    requires |t| < |pat|
    ensures !Occurs(t, pat, p)
  {}

  lemma InRange(t: seq<Octet>, pat: seq<Octet>, p: int)
    requires Occurs(t, pat, p)
    ensures 0 <= p
  {}

  lemma OccursAtStart(t: seq<Octet>, pat: seq<Octet>)
    requires |t| >= |pat|
    ensures Occurs(t, pat, 0) == (t[..|pat|] == pat)
  {}

  lemma OccursShifted(t: seq<Octet>, pat: seq<Octet>, p: int)
    requires t != [] && p > 0
    ensures Occurs(t, pat, p) == Occurs(t[1..], pat, p - 1)
  {
    if p <= |t| - |pat| {
      assert t[1..][p - 1..p - 1 + |pat|] == t[p..p + |pat|];
    }
  }

  // ---------- The shift table ----------

  /** The distance from the last occurrence of c in the pattern to the place just after the pattern. */
  function Shift(pat: seq<Octet>, c: Octet): (d: nat)
    ensures 1 <= d <= |pat| + 1
    ensures d <= |pat| ==> pat[|pat| - d] == c
    ensures forall k :: |pat| - d < k < |pat| ==> pat[k] != c
  {
    if pat == [] then 1
    else if pat[|pat| - 1] == c then 1
    else
      var d := 1 + Shift(pat[..|pat| - 1], c);
      d
  }

  ghost predicate IsShiftTable(shift: seq<nat>, pat: seq<Octet>) {
    |shift| >= 256 && forall c: Octet :: shift[c] == Shift(pat, c)
  }

  /** sunday_pre: fills the table for a pattern; the table may have more than 256 entries. */
  method SundayPre(shift: array<nat>, pat: seq<Octet>)
    requires shift.Length >= 256
    modifies shift
    ensures IsShiftTable(shift[..], pat)
    ensures forall i :: 256 <= i < shift.Length ==> shift[i] == |pat| + 1
  {
    var i := 0;
    while i < shift.Length
      invariant 0 <= i <= shift.Length
      invariant forall k :: 0 <= k < i ==> shift[k] == |pat| + 1
    {
      shift[i] := |pat| + 1;
      i := i + 1;
    }
    i := 0;
    while i < |pat|
      invariant 0 <= i <= |pat|
      invariant forall c: Octet :: shift[c] == Shift(pat[..i], c) + (|pat| - i)
      invariant forall k :: 256 <= k < shift.Length ==> shift[k] == |pat| + 1
    {
      assert pat[..i + 1][..i] == pat[..i];
      shift[pat[i]] := |pat| - i;
      i := i + 1;
    }
    assert pat[..i] == pat;
  }

  // ---------- The search ----------

  /** An occurrence after pos is no nearer than the shift; the byte after the target is never needed. */
  lemma NothingSkipped(t: seq<Octet>, pat: seq<Octet>, pos: nat, q: int, c: Octet)
    requires pos + |pat| < |t| ==> c == t[pos + |pat|]
    requires Occurs(t, pat, q) && pos < q
    ensures pos + Shift(pat, c) <= q
  {
    if q <= pos + |pat| {
      var k := pos + |pat| - q;
      if k < |pat| {
        assert t[q..q + |pat|][k] == t[pos + |pat|];
      }
    }
  }

  /** sunday_match: `past` is whatever byte lies just after the target. */
  method SundayMatch(t: seq<Octet>, pat: seq<Octet>, shift: array<nat>, past: Octet) returns (r: int)
    requires IsShiftTable(shift[..], pat)
    ensures FirstEnd(t, pat, r)
    ensures r == FindEnd(t, pat)
  {
    hide FindEnd;
    r := Search(t, pat, shift, past);
    FindEndIsFirst(t, pat);
    FirstEndUnique(t, pat, r, FindEnd(t, pat));
  }

  method Search(t: seq<Octet>, pat: seq<Octet>, shift: array<nat>, past: Octet) returns (r: int)
    requires IsShiftTable(shift[..], pat)
    ensures FirstEnd(t, pat, r)
  {
    var pos := 0;
    while pos <= |t| - |pat|
      invariant 0 <= pos
      invariant forall p :: Occurs(t, pat, p) ==> pos <= p
      decreases |t| - pos
    {
      var j := 0;
      while j < |pat| && t[pos + j] == pat[j]
        invariant 0 <= j <= |pat|
        invariant t[pos..pos + j] == pat[..j]
      {
        assert t[pos..pos + j + 1] == t[pos..pos + j] + [t[pos + j]];
        assert pat[..j + 1] == pat[..j] + [pat[j]];
        j := j + 1;
      }
      if j >= |pat| {
        assert pat[..j] == pat;
        return pos + |pat|;
      }
      assert t[pos..pos + |pat|][j] != pat[j];
      var c := if pos + |pat| < |t| then t[pos + |pat|] else past;
      forall p | Occurs(t, pat, p) ensures pos + Shift(pat, c) <= p {
        NothingSkipped(t, pat, pos, p, c);
      }
      assert shift[..][c] == Shift(pat, c);
      pos := pos + shift[c];
    }
    return -1;
  }
}
