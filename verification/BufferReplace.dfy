/** buffer_replace2: bytes of the input are replaced in place. */
module BufferReplace {
  import opened Counting
  import opened RingBuffer

  /** There is room for the input to grow by delta before the end of the data and before wrapped output. */
  predicate RoomFor(buf: Buffer, delta: int)
    requires buf.Valid()
    reads buf
  {
    && buf.BiEnd() + delta < buf.data.Length
    && !(buf.o + buf.i > 0 && buf.BiEnd() + delta > buf.BoPtr() >= buf.BiEnd())
  }

  /** In other words, the contents must fit, and input that does not wrap must end before the end of the data. */
  lemma RoomExactly(buf: Buffer, delta: int)
    requires buf.Valid()
    ensures RoomFor(buf, delta) <==>
      && (buf.p + buf.i < buf.data.Length ==> buf.p + buf.i + delta < buf.data.Length)
      && buf.o + buf.i + delta <= buf.data.Length
  {
  }

  /** The o bytes before offset p of a ring. */
  ghost function Before(d: seq<char>, p: nat, o: nat): seq<char>
    requires p < |d| && o <= |d|
  {
    Ring(d, if p < o then p + |d| - o else p - o, o)
  }

  /** Output, followed by input that does not wrap. */
  lemma RingSplit(d: seq<char>, p: nat, o: nat, i: nat)
    requires p < |d| && o + i <= |d| && p + i <= |d|
    ensures var s := Ring(d, if p < o then p + |d| - o else p - o, o + i);
      s[..o] == Before(d, p, o) && s[o..] == d[p..p + i]
  {
    hide Ring;
    var start := if p < o then p + |d| - o else p - o;
    var s := Ring(d, start, o + i);
    forall k | 0 <= k < i ensures s[o..][k] == d[p..p + i][k] {
      assert Place(start, o + k, |d|) == p + k;
    }
  }

  lemma BufferSplit(buf: Buffer)
    requires buf.Valid() && buf.p + buf.i < buf.data.Length
    ensures buf.Output() == Before(buf.data[..], buf.p, buf.o) && buf.Input() == buf.data[buf.p..buf.p + buf.i]
  {
    RingSplit(buf.data[..], buf.p, buf.o, buf.i);
  }

  // ---------------------------------------------------------------------------
  // What can be replaced

  /** The bytes from pos to end are consecutive ones of the input: before the end of the data, or, when the input
      reaches it, from offset 0 on. */
  predicate InInput(buf: Buffer, pos: nat, end: nat)
    requires buf.Valid()
    reads buf
  {
    || (buf.p <= pos <= end <= Min(buf.p + buf.i, buf.data.Length))
    || (pos <= end <= buf.p + buf.i - buf.data.Length)
  }

  /** How many bytes of the input there are before offset x. */
  function Index(buf: Buffer, x: nat): int
    reads buf
  {
    if x >= buf.p then x - buf.p else x + buf.data.Length - buf.p
  }

  /** The input ends before the end of the data, or the bytes to replace are among those that wrapped, or the
      input would run into the output. */
  predicate Replaceable(buf: Buffer, end: nat, delta: int)
    requires buf.Valid()
    reads buf
  {
    var wrapped := buf.p + buf.i - buf.data.Length;
    wrapped < 0 || end <= wrapped || wrapped + delta > buf.BoPtr()
  }

  /** How many bytes memmove is told to move when the call is not refused: the difference between the end of the
      input and `end`, as a size_t. */
  function MoveSize(buf: Buffer, end: nat): nat
    requires buf.Valid()
    reads buf
  {
    (buf.BiEnd() - end) % 0x1_0000_0000_0000_0000
  }

  /** What is moved lies in the data, unless the call is refused, if and only if that condition holds. The size of
      a buffer is an unsigned int. */
  lemma MoveSizeExactly(buf: Buffer, pos: nat, end: nat, delta: int)
    requires buf.Valid() && InInput(buf, pos, end) && buf.data.Length < 0x1_0000_0000
    ensures (RoomFor(buf, delta) ==> end + MoveSize(buf, end) <= buf.data.Length) <==> Replaceable(buf, end, delta)
  {
  }

  /** With the last 8 bytes of 16 as input, the first 4 of them are to be removed: 12 bytes less than none are to
      be moved. */
  lemma EndsAtTheEnd(buf: Buffer)
    requires buf.Valid() && buf.data.Length == 16 && buf.p == buf.i == 8 && buf.o <= 8
    ensures InInput(buf, 8, 12) && RoomFor(buf, -4) && MoveSize(buf, 12) == 0x1_0000_0000_0000_0000 - 12
  {
  }

  /** With 8 bytes of input of which 4 wrapped, 2 of the first 4 are to be removed. */
  lemma WrapsBehind(buf: Buffer)
    requires buf.Valid() && buf.data.Length == 16 && buf.p == 12 && buf.i == 8 && buf.o <= 8
    ensures InInput(buf, 13, 15) && RoomFor(buf, -2) && MoveSize(buf, 15) == 0x1_0000_0000_0000_0000 - 11
  {
  }

  // ---------------------------------------------------------------------------
  // The replacement

  /** buffer_replace2: the input between pos and end is replaced by str when there is room. */
  method Replace(buf: Buffer, pos: nat, end: nat, str: seq<char>) returns (delta: int)
    requires buf.Valid() && InInput(buf, pos, end) && Replaceable(buf, end, |str| - (end - pos))
    modifies buf, buf.data
    ensures buf.Valid() && buf.o == old(buf.o) && buf.Output() == old(buf.Output())
    ensures 0 <= old(Index(buf, pos)) <= old(Index(buf, pos)) + (end - pos) <= old(buf.i)
    ensures if old(RoomFor(buf, |str| - (end - pos))) then
        delta == |str| - (end - pos) && buf.i == old(buf.i) + delta
        && buf.Input() ==
           old(buf.Input()[..Index(buf, pos)]) + str + old(buf.Input()[Index(buf, pos) + (end - pos)..])
      else delta == 0 && buf.i == old(buf.i) && buf.p == old(buf.p) && buf.data[..] == old(buf.data[..])
  {
    hide Ring, Buffer.Contents;
    delta := |str| - (end - pos);
    var biEnd, boPtr := buf.BiEnd(), buf.BoPtr();
    if biEnd + delta >= buf.data.Length {
      return 0;
    }
    if buf.o + buf.i > 0 && biEnd + delta > boPtr && boPtr >= biEnd {
      return 0;
    }
    hide Buffer.Output, Buffer.Input, Buffer.BiEnd, Buffer.BoPtr, InInput, Replaceable, RoomFor;
    if buf.p + buf.i < buf.data.Length {
      Rewrite(buf, pos, end, str);
    } else {
      RewriteBehind(buf, pos, end, str);
    }
  }

  lemma NothingNew(s: seq<char>, k: nat)
    requires k <= |s|
    ensures s[..k] + [] + s[k..] == s
  {
  }

  /** The replacement among bytes that wrapped, as the input sees it */
  method RewriteBehind(buf: Buffer, pos: nat, end: nat, str: seq<char>)
    requires buf.Valid() && pos <= end <= buf.p + buf.i - buf.data.Length
    requires buf.o + buf.i + |str| - (end - pos) <= buf.data.Length
    modifies buf, buf.data
    ensures buf.Valid() && buf.o == old(buf.o) && buf.p == old(buf.p) && buf.i == old(buf.i) + |str| - (end - pos)
    ensures buf.Output() == old(buf.Output())
    ensures 0 <= old(Index(buf, pos)) <= old(Index(buf, pos)) + (end - pos) <= old(buf.i)
    ensures buf.Input() == old(buf.Input()[..Index(buf, pos)]) + str + old(buf.Input()[Index(buf, pos) + (end - pos)..])
  {
    ghost var all, k := buf.Contents(), buf.data.Length - buf.BoPtr() + pos;
    assert k - buf.o == pos + buf.data.Length - buf.p;
    hide Ring, Buffer.Contents, Buffer.BoPtr, Buffer.BiEnd;
    RewriteWrapped(buf, pos, end, str);
    if pos == buf.p {
      // the data are full of input, and nothing is replaced by nothing
      InputChanged(all, buf.Contents(), buf.o, k, 0, []);
      NothingNew(all[buf.o..], k - buf.o);
      NothingNew(all[buf.o..], 0);
    } else {
      InputChanged(all, buf.Contents(), buf.o, k, end - pos, str);
    }
  }

  lemma InputChanged(all: seq<char>, all': seq<char>, o: nat, k: nat, n: nat, str: seq<char>)
    requires o <= k <= k + n <= |all| && all' == all[..k] + str + all[k + n..]
    ensures all'[..o] == all[..o] && all'[o..] == all[o..][..k - o] + str + all[o..][k - o + n..]
  {
  }

  /** The replacement among bytes that wrapped */
  method RewriteWrapped(buf: Buffer, pos: nat, end: nat, str: seq<char>)
    requires buf.Valid() && pos <= end <= buf.p + buf.i - buf.data.Length
    requires buf.p + buf.i - buf.data.Length + |str| - (end - pos) <= buf.BoPtr()
    modifies buf, buf.data
    ensures buf.Valid() && buf.o == old(buf.o) && buf.p == old(buf.p) && buf.i == old(buf.i) + |str| - (end - pos)
    ensures var k := old(buf.data.Length - buf.BoPtr()) + pos;
      && buf.o <= k <= k + (end - pos) <= old(buf.o + buf.i)
      && buf.Contents() == old(buf.Contents())[..k] + str + old(buf.Contents())[k + (end - pos)..]
  {
    hide Ring;
    var start, biEnd: nat := buf.BoPtr(), buf.p + buf.i - buf.data.Length;
    PasteWrapped(buf.data, start, pos, end, biEnd, str);
    Regrown(buf, start, buf.i + |str| - (end - pos));
  }

  /** The pasting, as the ring of bytes sees it */
  method PasteWrapped(data: array<char>, start: nat, pos: nat, end: nat, biEnd: nat, str: seq<char>)
    requires pos <= end <= biEnd <= start < data.Length && pos + |str| + (biEnd - end) <= start
    modifies data
    ensures var all, k := old(Ring(data[..], start, data.Length - start + biEnd)), data.Length - start + pos;
      Ring(data[..], start, data.Length - start + pos + |str| + (biEnd - end)) ==
        all[..k] + str + all[k + (end - pos)..]
  {
    hide Ring;
    ghost var d := data[..];
    Paste(data, pos, end, biEnd, str);
    RingWrapped(d, data[..], start, pos, end, biEnd, str);
  }

  /** The input ends further or earlier, and some of it does not wrap. */
  method Regrown(buf: Buffer, start: nat, i: nat)
    requires buf.Valid() && start == buf.BoPtr() && buf.o + i <= buf.data.Length && 0 < i
    modifies buf`i
    ensures buf.Valid() && buf.i == i && buf.Contents() == Ring(buf.data[..], start, buf.o + i)
  {
    hide Ring;
    buf.i := i;
  }

  lemma RingWrapped(d: seq<char>, d': seq<char>, start: nat, pos: nat, end: nat, biEnd: nat, str: seq<char>)
    requires pos <= end <= biEnd <= start < |d| && pos + |str| + (biEnd - end) <= start
    requires d' == d[..pos] + str + d[end..biEnd] + d[pos + |str| + (biEnd - end)..]
    ensures |d'| == |d|
    ensures var all, k := Ring(d, start, |d| - start + biEnd), |d| - start + pos;
      Ring(d', start, |d| - start + pos + |str| + (biEnd - end)) == all[..k] + str + all[k + (end - pos)..]
  {
    RingBlocks(d, start, |d| - start + biEnd);
    RingBlocks(d', start, |d| - start + pos + |str| + (biEnd - end));
    hide Ring;
    assert d[start..] == d[start..|d|] && d'[start..] == d'[start..|d|];
    PastedWrapped(d, d', start, pos, end, biEnd, str);
  }

  lemma PastedWrapped(d: seq<char>, d': seq<char>, start: nat, pos: nat, end: nat, biEnd: nat, str: seq<char>)
    requires pos <= end <= biEnd <= start <= |d| && pos + |str| + (biEnd - end) <= start
    requires d' == d[..pos] + str + d[end..biEnd] + d[pos + |str| + (biEnd - end)..]
    ensures |d'| == |d|
    ensures var all, k := d[start..] + d[..biEnd], |d| - start + pos;
      d'[start..] + d'[..pos + |str| + (biEnd - end)] == all[..k] + str + all[k + (end - pos)..]
  {
  }

  /** The replacement, when there is room */
  method Rewrite(buf: Buffer, pos: nat, end: nat, str: seq<char>)
    requires buf.Valid() && buf.p <= pos <= end <= buf.p + buf.i < buf.data.Length
    requires var last := pos + |str| + (buf.p + buf.i - end);
      last < buf.data.Length && (buf.p < buf.o ==> last <= buf.p + buf.data.Length - buf.o)
    modifies buf, buf.data
    ensures buf.Valid() && buf.o == old(buf.o) && buf.Output() == old(buf.Output())
    ensures buf.i == old(buf.i) + |str| - (end - pos)
    ensures buf.Input() == old(buf.Input()[..pos - buf.p]) + str + old(buf.Input()[end - buf.p..])
  {
    hide Ring, Buffer.Contents, Buffer.Output, Buffer.Input, Before, Buffer.BiEnd, Buffer.BoPtr;
    BufferSplit(buf);
    ghost var d := buf.data[..];
    Paste(buf.data, pos, end, buf.p + buf.i, str);
    Pasted(d, buf.data[..], buf.p, buf.o, buf.i, pos, end, str);
    var i: nat := buf.i + |str| - (end - pos);
    assert buf.p + i == pos + |str| + (buf.p + buf.i - end);
    Grown(buf, i);
  }

  /** The input ends further or earlier; an empty buffer starts over. */
  method Grown(buf: Buffer, i: nat)
    requires buf.p + i < buf.data.Length && buf.o + i <= buf.data.Length
    modifies buf
    ensures buf.Valid() && buf.o == old(buf.o) && buf.i == i
    ensures buf.Output() == Before(buf.data[..], old(buf.p), buf.o)
    ensures buf.Input() == buf.data[old(buf.p)..old(buf.p) + i]
  {
    buf.i := i;
    BufferSplit(buf);
    hide Ring;
    if buf.o + buf.i == 0 {
      buf.p := 0;
    }
  }

  /** What follows `end` is moved first, so that nothing of it is lost. */
  method Paste(data: array<char>, pos: nat, end: nat, biEnd: nat, str: seq<char>)
    requires pos <= end <= biEnd < data.Length && pos + |str| + (biEnd - end) < data.Length
    modifies data
    ensures data[..] == old(data[..pos]) + str + old(data[end..biEnd]) + old(data[pos + |str| + (biEnd - end)..])
  {
    var at := pos + |str|;
    ghost var d := data[..];
    CopyTo(data, at, data[end..biEnd]);
    ghost var d1 := data[..];
    CopyTo(data, pos, str);
    PasteParts(d, d1, data[..], pos, str, d[end..biEnd]);
  }

  lemma PasteParts(d: seq<char>, d1: seq<char>, d2: seq<char>, pos: nat, str: seq<char>, tail: seq<char>)
    requires pos + |str| + |tail| <= |d| == |d1| == |d2|
    requires var at, last := pos + |str|, pos + |str| + |tail|;
      && d1[..last] == d[..at] + tail && d1[last..] == d[last..]
      && d2[..at] == d1[..pos] + str && d2[at..] == d1[at..]
    ensures d2 == d[..pos] + str + tail + d[pos + |str| + |tail|..]
  {
    var at, last := pos + |str|, pos + |str| + |tail|;
    assert d1[..pos] == d1[..last][..pos] == d[..at][..pos] == d[..pos];
    assert d1[at..last] == d1[..last][at..] == tail;
    TwoParts(d1, at, last);
    assert d2 == d2[..at] + d2[at..];
  }

  lemma TwoParts(s: seq<char>, a: nat, b: nat)
    requires a <= b <= |s|
    ensures s[a..] == s[a..b] + s[b..]
  {
  }

  lemma Pasted(d: seq<char>, d': seq<char>, p: nat, o: nat, i: nat, pos: nat, end: nat, str: seq<char>)
    requires p <= pos <= end <= p + i < |d| && o + i <= |d| && |d'| == |d|
    requires pos + |str| + (p + i - end) < |d| && (p < o ==> pos + |str| + (p + i - end) <= p + |d| - o)
    requires d' == d[..pos] + str + d[end..p + i] + d[pos + |str| + (p + i - end)..]
    ensures Before(d', p, o) == Before(d, p, o)
    ensures d'[p..pos + |str| + (p + i - end)] == d[p..p + i][..pos - p] + str + d[p..p + i][end - p..]
  {
    var last := pos + |str| + (p + i - end);
    var a, b, c := d[..pos], d[end..p + i], d[last..];
    assert d'[p..last] == d[p..pos] + str + b by {
      hide Before;
      assert d'[..last] == a + str + b && d'[p..last] == d'[..last][p..];
    }
    hide Before;
    assert d[p..p + i][..pos - p] == d[p..pos] && d[p..p + i][end - p..] == b;
    PastedBefore(d, d', p, o, pos, last);
  }

  /** What is before pos and what is after `last` stay. */
  lemma PastedBefore(d: seq<char>, d': seq<char>, p: nat, o: nat, pos: nat, last: nat)
    requires p < |d| && o <= |d| && |d'| == |d| && p <= pos <= last <= |d| && (p < o ==> last <= p + |d| - o)
    requires forall x: nat | x < pos || last <= x < |d| :: d'[x] == d[x]
    ensures Before(d', p, o) == Before(d, p, o)
  {
  }
}
