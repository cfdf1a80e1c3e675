/**
 * mtcp/util/ring_buffer.c: relay buffers and the framing of their data. A buffer is a block of memory
 * in which the data occupies one stretch; data is taken from its front and added at its back.
 */
module RepFrames {
  import opened Basics

  const MAX_REP_LEN := 10 * 1024

  datatype RepHdr = RepHdr(msgType: nat, command: nat, msgLen: nat)

  /** How a header lies in memory; the code only needs its size and that its fields can be read back. */
  datatype Layout = Layout(size: nat, encode: RepHdr -> seq<Octet>, decode: seq<Octet> -> RepHdr)

  /** The header of a frame with n bytes of data. */
  function DataHdr(n: nat): RepHdr { RepHdr(0x01, 0x00, n) }

  /** The length field is wide enough for MAX_REP_LEN: every header that is written can be read back. */
  ghost predicate Faithful(l: Layout) {
    && l.size > 0
    && forall n: nat :: n <= MAX_REP_LEN ==>
         |l.encode(DataHdr(n))| == l.size && l.decode(l.encode(DataHdr(n))) == DataHdr(n)
  }

  function Low(n: nat): Octet { n % 256 }

  function Pair(hi: nat, lo: nat): nat { 256 * hi + lo }

  /** One byte each for type and command, two for the length. */
  function PackedLayout(): Layout {
    Layout(4,
           (h: RepHdr) => [Low(h.msgType), Low(h.command), Low(h.msgLen / 256), Low(h.msgLen)],
           (s: seq<Octet>) => if |s| == 4 then RepHdr(s[0], s[1], Pair(s[2], s[3])) else RepHdr(0, 0, 0))
  }

  lemma PackedIsFaithful()
    ensures Faithful(PackedLayout())
  {
    var l := PackedLayout();
    forall n: nat | n <= MAX_REP_LEN
      ensures |l.encode(DataHdr(n))| == l.size && l.decode(l.encode(DataHdr(n))) == DataHdr(n)
    {
      assert n / 256 < 256 && Low(n / 256) == n / 256 && Pair(n / 256, Low(n)) == n;
    }
  }

  function Frame(l: Layout, chunk: seq<Octet>): seq<Octet> { l.encode(DataHdr(|chunk|)) + chunk }

  /** In that layout a frame is 1, 0, the length in two bytes, and the data. */
  lemma PackedFrame(chunk: seq<Octet>)
    requires |chunk| <= 10240
    ensures Frame(PackedLayout(), chunk) == [1, 0, |chunk| / 256, |chunk| % 256] + chunk
  {
    assert |chunk| / 256 < 256;
  }

  function Framed(l: Layout, chunks: seq<seq<Octet>>): seq<Octet> {
    if chunks == [] then [] else Framed(l, chunks[..|chunks| - 1]) + Frame(l, chunks[|chunks| - 1])
  }

  function Joined(chunks: seq<seq<Octet>>): seq<Octet> {
    if chunks == [] then [] else Joined(chunks[..|chunks| - 1]) + chunks[|chunks| - 1]
  }

  /** What a receiver reads: header by header, the data each one announces. */
  function Unframed(l: Layout, s: seq<Octet>): Option<seq<Octet>>
    requires l.size > 0
    decreases |s|
  {
    if s == [] then Some([])
    else if |s| < l.size then None
    else
      var h := l.decode(s[..l.size]);
      if h.msgType != 0x01 || h.command != 0x00 || |s| < l.size + h.msgLen then None
      else
        var rest := Unframed(l, s[l.size + h.msgLen..]);
        if rest.None? then None else Some(s[l.size..l.size + h.msgLen] + rest.value)
  }

  predicate FitFrames(chunks: seq<seq<Octet>>) {
    forall i :: 0 <= i < |chunks| ==> |chunks[i]| <= MAX_REP_LEN
  }

  lemma FrameFirst(l: Layout, chunk: seq<Octet>, rest: seq<Octet>)
    requires Faithful(l) && Unframed(l, rest).Some? && |chunk| <= MAX_REP_LEN
    ensures Unframed(l, Frame(l, chunk) + rest) == Some(chunk + Unframed(l, rest).value)
  {
    var s := Frame(l, chunk) + rest;
    assert s[..l.size] == l.encode(DataHdr(|chunk|));
    assert s[l.size..l.size + |chunk|] == chunk;
    assert s[l.size + |chunk|..] == rest;
  }

  lemma {:induction false} FramesFirst(l: Layout, chunks: seq<seq<Octet>>, rest: seq<Octet>)
    requires Faithful(l) && Unframed(l, rest).Some? && FitFrames(chunks)
    ensures Unframed(l, Framed(l, chunks) + rest) == Some(Joined(chunks) + Unframed(l, rest).value)
  {
    hide Unframed, Frame;
    if chunks == [] {
      assert Framed(l, chunks) + rest == rest;
      assert Joined(chunks) == [];
      assert [] + Unframed(l, rest).value == Unframed(l, rest).value;
    } else {
      var n := |chunks| - 1;
      FrameFirst(l, chunks[n], rest);
      assert Framed(l, chunks) + rest == Framed(l, chunks[..n]) + (Frame(l, chunks[n]) + rest);
      FramesFirst(l, chunks[..n], Frame(l, chunks[n]) + rest);
      var v := Unframed(l, rest).value;
      assert Joined(chunks[..n]) + (chunks[n] + v) == (Joined(chunks[..n]) + chunks[n]) + v;
    }
  }

  /** Reading frames back gives the data they were made of. */
  lemma UnframedFramed(l: Layout, chunks: seq<seq<Octet>>)
    requires Faithful(l) && FitFrames(chunks)
    ensures Unframed(l, Framed(l, chunks)) == Some(Joined(chunks))
  {
    hide Framed;
    FramesFirst(l, chunks, []);
    assert Framed(l, chunks) + [] == Framed(l, chunks);
    assert Joined(chunks) + [] == Joined(chunks);
  }

  lemma OneMore(l: Layout, chunks: seq<seq<Octet>>, chunk: seq<Octet>)
    ensures Framed(l, chunks + [chunk]) == Framed(l, chunks) + Frame(l, chunk)
    ensures Joined(chunks + [chunk]) == Joined(chunks) + chunk
  {
    assert (chunks + [chunk])[..|chunks|] == chunks;
  }

  /** All frames but the last carry as much as a frame may, and none is empty. */
  predicate FewestFrames(chunks: seq<seq<Octet>>) {
    && (forall i :: 0 <= i < |chunks| ==> 0 < |chunks[i]| <= MAX_REP_LEN)
    && (forall i :: 0 <= i < |chunks| - 1 ==> |chunks[i]| == MAX_REP_LEN)
  }
}

module RepBuffer {
  import opened Basics
  import opened RepFrames

  class RingBuffer {
    const head: array<Octet>
    var data: nat      // where the data starts
    var dataSize: nat
    var cumSize: nat

    ghost predicate Valid()
      reads this
    {
      data + dataSize <= head.Length && (dataSize == 0 ==> data == 0)
    }

    ghost function Contents(): seq<Octet>
      requires Valid()
      reads this, head
    {
      head[data..data + dataSize]
    }

    constructor (size: nat)
      ensures Valid() && fresh(head) && head.Length == size && Contents() == [] && cumSize == 0
    {
      head := new Octet[size];
      data, dataSize, cumSize := 0, 0, 0;
    }

    /** The room behind the data, after moving the data back to the front if it starts past the middle. */
    method GetRemain() returns (room: nat)
      requires Valid() && head.Length > 0
      modifies head, this`data
      ensures Valid() && Contents() == old(Contents())
      ensures data == if old(data) > head.Length / 2 then 0 else old(data)
      ensures room == head.Length - data - dataSize
    {
      if data > head.Length / 2 {
        MoveToFront();
      }
      room := head.Length - dataSize - data;
    }

    method MoveToFront()
      requires Valid()
      modifies head, this`data
      ensures Valid() && data == 0 && Contents() == old(Contents())
    {
      Slide(head, data, dataSize);
      SlidAll(old(head[..]), data, dataSize);
      assert head[..dataSize] == head[..][..dataSize];
      assert old(head[data..data + dataSize]) == old(head[..])[data..data + dataSize];
      data := 0;
    }

    /** Takes size bytes off the front; fails, changing nothing, if there are not that many. */
    method Remove(size: int) returns (r: int)
      requires Valid()
      modifies this`data, this`dataSize
      ensures Valid()
      ensures r == if 0 <= size <= old(dataSize) then size else -1
      ensures r >= 0 ==> Contents() == old(Contents())[size..]
      ensures r < 0 ==> Contents() == old(Contents())
      ensures data + dataSize <= old(data + dataSize)
    {
      if size < 0 {
        return -1;
      }
      if size > dataSize {
        return -1;
      }
      dataSize := dataSize - size;
      if dataSize == 0 {
        data := 0;
      } else {
        data := data + size;
      }
      r := size;
    }

    /** Copies bytes in behind the data and counts them. */
    method Add(bytes: seq<Octet>)
      requires Valid() && data + dataSize + |bytes| <= head.Length
      modifies head, this`dataSize, this`cumSize
      ensures Valid() && Contents() == old(Contents()) + bytes
      ensures dataSize == old(dataSize) + |bytes| && cumSize == old(cumSize) + |bytes|
    {
      var i, ip := 0, data + dataSize;
      while i < |bytes|
        invariant 0 <= i <= |bytes| && dataSize == old(dataSize) && cumSize == old(cumSize)
        invariant forall k :: data <= k < ip ==> head[k] == old(head[k])
        invariant forall k :: 0 <= k < i ==> head[ip + k] == bytes[k]
      {
        head[ip + i] := bytes[i];
        i := i + 1;
      }
      dataSize := dataSize + |bytes|;
      cumSize := cumSize + |bytes|;
      assert Contents() == old(Contents()) + bytes;
    }
  }

  /** The memory when the first i bytes of the data at d have been copied to its front. */
  function Slid<T>(m: seq<T>, d: nat, i: nat): (r: seq<T>)
    requires d + i <= |m|
    ensures |r| == |m|
  {
    m[d..d + i] + m[i..]
  }

  /** Moves n bytes from d to the front, lowest first, although the two places may overlap. */
  method Slide(a: array<Octet>, d: nat, n: nat)
    requires d + n <= a.Length
    modifies a
    ensures a[..] == Slid(old(a[..]), d, n)
  {
    hide Slid;
    ghost var m := a[..];
    SlidNone(m, d);
    var i := 0;
    while i < n
      invariant 0 <= i <= n && a[..] == Slid(m, d, i)
    {
      SlidMore(m, d, i);
      var x := a[d + i];
      a[i] := x;
      assert a[..] == Slid(m, d, i)[i := x];
      i := i + 1;
    }
  }

  lemma SlidNone<T>(m: seq<T>, d: nat)
    requires d <= |m|
    ensures Slid(m, d, 0) == m
  {}

  lemma SlidMore<T>(m: seq<T>, d: nat, i: nat)
    requires d + i < |m|
    ensures Slid(m, d, i)[i := Slid(m, d, i)[d + i]] == Slid(m, d, i + 1)
  {}

  lemma SlidAll<T>(m: seq<T>, d: nat, n: nat)
    requires d + n <= |m|
    ensures Slid(m, d, n)[..n] == m[d..d + n]
  {}

  /** Copies up to len bytes of the source's front to the destination's back. */
  method CopyData(dest: RingBuffer, src: RingBuffer, len: nat) returns (n: nat)
    requires dest.Valid() && src.Valid() && dest.head.Length > 0
    requires dest != src && dest.head != src.head
    modifies dest, dest.head
    ensures dest.Valid() && src.Valid()
    ensures n <= src.dataSize && dest.Contents() == old(dest.Contents()) + src.Contents()[..n]
    ensures n == len || n == src.dataSize || dest.data + dest.dataSize == dest.head.Length
    ensures n <= len && dest.cumSize == old(dest.cumSize) + n
  {
    var room := dest.GetRemain();
    if room <= 0 {
      return 0;
    }
    n := Min(src.dataSize, Min(room, len));
    dest.Add(src.head[src.data..src.data + n]);
  }

  /** Moves the source's first n bytes behind a header of their own. */
  method MoveFrame(l: Layout, dest: RingBuffer, src: RingBuffer, n: nat)
    requires Faithful(l)
    requires dest.Valid() && src.Valid() && dest != src && dest.head != src.head
    requires n <= src.dataSize && n <= MAX_REP_LEN && dest.data + dest.dataSize + l.size + n <= dest.head.Length
    modifies dest`dataSize, dest`cumSize, dest.head, src`data, src`dataSize
    ensures dest.Valid() && src.Valid()
    ensures dest.Contents() == old(dest.Contents()) + Frame(l, old(src.Contents())[..n])
    ensures src.Contents() == old(src.Contents())[n..]
    ensures dest.dataSize == old(dest.dataSize) + l.size + n && src.dataSize == old(src.dataSize) - n
    ensures dest.cumSize == old(dest.cumSize) + l.size + n
  {
    ghost var was, from := dest.Contents(), src.Contents();
    var chunk := src.head[src.data..src.data + n];
    assert chunk == from[..n];
    var hdr := l.encode(DataHdr(n));
    FrameIs(l, chunk);
    hide Frame, Faithful;
    dest.Add(hdr);
    dest.Add(chunk);
    Reassociate(was, hdr, chunk);
    assert src.Contents() == from;
    var ret := src.Remove(n);
  }

  lemma FrameIs(l: Layout, chunk: seq<Octet>)
    requires Faithful(l) && |chunk| <= MAX_REP_LEN
    ensures Frame(l, chunk) == l.encode(DataHdr(|chunk|)) + chunk && |l.encode(DataHdr(|chunk|))| == l.size
  {}

  lemma TakeMore<T>(s: seq<T>, sum: nat, n: nat)
    requires sum + n <= |s|
    ensures s[..sum] + s[sum..][..n] == s[..sum + n] && s[sum..][n..] == s[sum + n..]
  {}

  /** A further frame after full ones keeps all but the last full. */
  lemma FewestMore(chunks: seq<seq<Octet>>, chunk: seq<Octet>)
    requires forall i :: 0 <= i < |chunks| ==> |chunks[i]| == MAX_REP_LEN
    requires 0 < |chunk| <= MAX_REP_LEN
    ensures FewestFrames(chunks + [chunk])
  {}

  /** The source has its first sum bytes framed at the end of the destination. */
  ghost predicate Moved(l: Layout, dest: RingBuffer, src: RingBuffer, d0: seq<Octet>, s0: seq<Octet>,
                        sum: nat, chunks: seq<seq<Octet>>)
    reads dest, dest.head, src, src.head
  {
    && dest.Valid() && src.Valid() && sum <= |s0|
    && dest.Contents() == d0 + Framed(l, chunks)
    && Joined(chunks) == s0[..sum] && src.Contents() == s0[sum..]
  }

  method MoveOneMore(l: Layout, dest: RingBuffer, src: RingBuffer, n: nat, ghost d0: seq<Octet>,
                     ghost s0: seq<Octet>, ghost sum: nat, ghost chunks: seq<seq<Octet>>)
    returns (ghost chunk: seq<Octet>)
    requires Faithful(l) && Moved(l, dest, src, d0, s0, sum, chunks) && dest != src && dest.head != src.head
    requires n <= src.dataSize && n <= MAX_REP_LEN && dest.data + dest.dataSize + l.size + n <= dest.head.Length
    modifies dest`dataSize, dest`cumSize, dest.head, src`data, src`dataSize
    ensures |chunk| == n && sum + n <= |s0| && Moved(l, dest, src, d0, s0, sum + n, chunks + [chunk])
    ensures dest.dataSize == old(dest.dataSize) + l.size + n && src.dataSize == old(src.dataSize) - n
    ensures dest.cumSize - dest.dataSize == old(dest.cumSize - dest.dataSize)
  {
    chunk := src.Contents()[..n];
    MoveFrame(l, dest, src, n);
    hide Framed, Joined, Frame, Faithful;
    OneMore(l, chunks, chunk);
    TakeMore(s0, sum, n);
    assert d0 + Framed(l, chunks) + Frame(l, chunk) == d0 + (Framed(l, chunks) + Frame(l, chunk));
  }

  /** Frames data while there is any and there is room for more than a header. */
  method MoveFrames(l: Layout, dest: RingBuffer, src: RingBuffer, wanted: nat, space: nat,
                    ghost d0: seq<Octet>, ghost s0: seq<Octet>)
    returns (sum: nat, ghost chunks: seq<seq<Octet>>)
    requires Faithful(l) && Moved(l, dest, src, d0, s0, 0, []) && dest != src && dest.head != src.head
    requires wanted <= src.dataSize && dest.data + dest.dataSize + space == dest.head.Length
    modifies dest`dataSize, dest`cumSize, dest.head, src`data, src`dataSize
    ensures Moved(l, dest, src, d0, s0, sum, chunks) && FewestFrames(chunks) && sum <= wanted
    ensures sum == wanted || dest.head.Length - dest.data - dest.dataSize <= l.size
    ensures dest.cumSize - dest.dataSize == old(dest.cumSize - dest.dataSize)
  {
    hide Moved, Framed, Joined, Faithful, FewestFrames;
    var dataSize, room := wanted, space;
    sum, chunks := 0, [];
    NoFrames();
    while dataSize > 0 && room > l.size
      invariant Moved(l, dest, src, d0, s0, sum, chunks)
      invariant 0 <= dataSize <= src.dataSize && sum + dataSize == wanted
      invariant 0 <= room == dest.head.Length - dest.data - dest.dataSize
      invariant FewestFrames(chunks) && dest.cumSize - dest.dataSize == old(dest.cumSize - dest.dataSize)
      invariant dataSize > 0 && room > l.size ==> forall i :: 0 <= i < |chunks| ==> |chunks[i]| == MAX_REP_LEN
    {
      var toMove := Min(Min(dataSize, room - l.size), MAX_REP_LEN);
      room := room - l.size - toMove;
      dataSize := dataSize - toMove;
      ghost var chunk := MoveOneMore(l, dest, src, toMove, d0, s0, sum, chunks);
      FewestMore(chunks, chunk);
      chunks := chunks + [chunk];
      sum := sum + toMove;
    }
  }

  lemma NoFrames()
    ensures FewestFrames([])
  {}

  /**
   * Frames the front of the source onto the back of the destination. What is added is a run of frames,
   * all full but the last, whose data is exactly what the source lost; the loop stops only when the
   * wanted data is gone or no byte would fit behind a further header.
   */
  method MoveToRep(l: Layout, dest: RingBuffer, src: RingBuffer, len: int)
    returns (sum: nat, ghost chunks: seq<seq<Octet>>)
    requires Faithful(l)
    requires dest.Valid() && src.Valid() && dest.head.Length > 0
    requires dest != src && dest.head != src.head
    modifies dest, dest.head, src
    ensures dest.Valid() && src.Valid()
    ensures sum <= old(src.dataSize) && (len > 0 ==> sum <= len)
    ensures dest.Contents() == old(dest.Contents()) + Framed(l, chunks)
    ensures Unframed(l, Framed(l, chunks)) == Some(old(src.Contents())[..sum])
    ensures src.Contents() == old(src.Contents())[sum..]
    ensures FewestFrames(chunks)
    ensures dest.cumSize == old(dest.cumSize) + |Framed(l, chunks)| && src.cumSize == old(src.cumSize)
    ensures || sum == old(src.dataSize) || (len > 0 && sum == len)
            || dest.head.Length - dest.data - dest.dataSize <= l.size
  {
    var dataSize := src.dataSize;
    var room := dest.GetRemain();
    if len > 0 {
      dataSize := Min(dataSize, len);
    }
    ghost var d0, s0 := dest.Contents(), src.Contents();
    assert d0 + Framed(l, []) == d0 && s0[..0] == [] && s0[0..] == s0;
    sum, chunks := MoveFrames(l, dest, src, dataSize, room, d0, s0);
    hide Framed, Joined;
    UnframedFramed(l, chunks);
  }
}
