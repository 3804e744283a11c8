/** struct buffer: a ring of bytes holding the output, waiting to be sent, followed by the input, waiting
    to be analysed. */
module RingBuffer {
  import opened Counting

  class Buffer {
    const data: array<char>
    var p: nat
    var i: nat
    var o: nat

    ghost predicate Valid()
      reads this
    {
      0 < data.Length && p < data.Length && i + o <= data.Length
    }

    constructor (size: nat)
      requires size > 0
      ensures Valid() && fresh(data) && data.Length == size && p == i == o == 0
    {
      data := new char[size];
      p, i, o := 0, 0, 0;
    }

    /** bo_ptr: where the output starts, and so the contents. */
    function BoPtr(): (r: nat)
      requires Valid()
      reads this
      ensures r < data.Length
    {
      if p < o then p + data.Length - o else p - o
    }

    /** bi_end: where the next input byte goes. */
    function BiEnd(): (r: nat)
      requires Valid()
      reads this
      ensures r < data.Length
    {
      if p + i >= data.Length then p + i - data.Length else p + i
    }

    /** b_adv: bytes go from the input to the output, and nothing moves. */
    method Adv(n: nat)
      requires Valid() && n <= i
      modifies this
      ensures Valid() && i == old(i) - n && o == old(o) + n
      ensures BoPtr() == old(BoPtr()) && BiEnd() == old(BiEnd()) && Contents() == old(Contents())
    {
      i, o, p := i - n, o + n, Wrap(p + n, data.Length);
    }

    /** buffer_contig_space: room from the end of the input up to the end of the data or, when the output wraps, the
        first output byte. It is free room if and only if the input does not wrap. */
    function ContigSpace(): (r: nat)
      requires Valid()
      reads this
      ensures BiEnd() + r == if o > p then BoPtr() else data.Length
      ensures r <= data.Length - o - i <==> p + i < data.Length
      ensures r >= Min(data.Length - o - i, data.Length - BiEnd())
    {
      var right := if o <= p then data.Length else p + data.Length - o;
      right - Wrap(p + i, data.Length)
    }

    /** buffer_realign: an empty buffer starts over, and the room for writing at once is returned. */
    method Realign() returns (max: nat)
      requires Valid()
      modifies this
      ensures Valid() && o == old(o) && i == old(i) && Contents() == old(Contents())
      ensures max == ContigSpace() && p == if o + i == 0 then 0 else old(p)
    {
      if o + i == 0 {
        p := 0;
      }
      max := ContigSpace();
    }

    /** The first bytes of the output leave; an empty buffer starts over. */
    method Drop(n: nat)
      requires Valid() && n <= o
      modifies this
      ensures Valid() && o == old(o) - n && i == old(i) && Contents() == old(Contents())[n..]
    {
      RingSkips(data[..], BoPtr(), o + i, n);
      o := o - n;
      if o + i == 0 {
        p := 0;
      }
    }

    ghost function Contents(): (s: seq<char>)
      requires Valid()
      reads this, data
      ensures |s| == o + i
    {
      Ring(data[..], BoPtr(), o + i)
    }

    ghost function Output(): (s: seq<char>)
      requires Valid()
      reads this, data
      ensures |s| == o
    {
      Contents()[..o]
    }

    ghost function Input(): (s: seq<char>)
      requires Valid()
      reads this, data
      ensures |s| == i
    {
      Contents()[o..]
    }
  }

  /** buffer_wrap_add, and b_ptr forwards: the offset x of a ring of n bytes, brought back into it. */
  function Wrap(x: nat, n: nat): (r: nat)
    requires x < 2 * n
    ensures r < n
  {
    if x >= n then x - n else x
  }

  /** The offset of the byte number k of contents that begin at `start`. */
  function Place(start: nat, k: nat, n: nat): (r: nat)
    requires start < n && k <= n
    ensures r < n
  {
    Wrap(start + k, n)
  }

  /** The n bytes found from offset `start` on in a ring. */
  ghost function Ring(d: seq<char>, start: nat, n: nat): (s: seq<char>)
    requires start < |d| && n <= |d|
    ensures |s| == n
    ensures forall k | 0 <= k < n :: s[k] == d[Place(start, k, |d|)]
  {
    seq(n, k requires 0 <= k < n => d[Place(start, k, |d|)])
  }

  /** The output ends, and the input begins, at the pointer p, both going around the ring. */
  lemma AroundP(buf: Buffer)
    requires buf.Valid()
    ensures forall k | 0 <= k < buf.i :: buf.Input()[k] == buf.data[Wrap(buf.p + k, buf.data.Length)]
    ensures forall k | 0 <= k < buf.o ::
      buf.Output()[k] == buf.data[Wrap(buf.p + buf.data.Length - buf.o + k, buf.data.Length)]
  {
    hide Ring;
    forall k | 0 <= k < buf.i ensures buf.Input()[k] == buf.data[Wrap(buf.p + k, buf.data.Length)] {
      assert buf.Input()[k] == buf.Contents()[buf.o + k];
    }
  }

  /** Writing a block just after the contents appends it. */
  lemma RingAppends(d: seq<char>, d': seq<char>, start: nat, n: nat, blk: seq<char>)
    requires start < |d| && |d'| == |d| && n + |blk| <= |d|
    requires forall k | 0 <= k < |blk| :: d'[Wrap(Place(start, n, |d|) + k, |d|)] == blk[k]
    requires forall k | 0 <= k < n :: d'[Place(start, k, |d|)] == d[Place(start, k, |d|)]
    ensures Ring(d', start, n + |blk|) == Ring(d, start, n) + blk
  {
    forall k | 0 <= k < n + |blk| ensures Ring(d', start, n + |blk|)[k] == (Ring(d, start, n) + blk)[k] {
      if k >= n {
        assert d'[Wrap(Place(start, n, |d|) + (k - n), |d|)] == blk[k - n];
      }
    }
  }

  lemma RingSkips(d: seq<char>, start: nat, n: nat, skip: nat)
    requires start < |d| && skip <= n <= |d|
    ensures Ring(d, Place(start, skip, |d|), n - skip) == Ring(d, start, n)[skip..]
  {
  }

  /** A part of the contents, in one or two blocks. */
  lemma RingPart(d: seq<char>, start: nat, n: nat, from: nat, len: nat)
    requires start < |d| && from + len <= n <= |d|
    ensures Ring(d, start, n)[from..from + len] ==
      if start + from >= |d| then d[start + from - |d|..start + from - |d| + len]
      else if start + from + len <= |d| then d[start + from..start + from + len]
      else d[start + from..] + d[..start + from + len - |d|]
  {
  }

  lemma RingBlocks(d: seq<char>, start: nat, n: nat)
    requires start < |d| && n <= |d|
    ensures Ring(d, start, n) ==
      if start + n <= |d| then d[start..start + n] else d[start..] + d[..start + n - |d|]
  {
    RingPart(d, start, n, 0, n);
    assert Ring(d, start, n)[0..n] == Ring(d, start, n);
  }

  /** memcpy and memmove into an array. */
  method CopyTo(dst: array<char>, at: nat, src: seq<char>)
    requires at + |src| <= dst.Length
    modifies dst
    ensures dst[..at + |src|] == old(dst[..at]) + src && dst[at + |src|..] == old(dst[at + |src|..])
  {
    forall k | 0 <= k < |src| {
      dst[at + k] := src[k];
    }
  }

  /** The block goes after the contents, in one or two pieces. */
  method AppendBytes(buf: Buffer, blk: seq<char>)
    requires buf.Valid() && 0 < |blk| <= buf.data.Length - buf.o - buf.i
    modifies buf, buf.data
    ensures buf.Valid() && buf.p == old(buf.p) && buf.o == old(buf.o) && buf.i == old(buf.i) + |blk|
    ensures buf.Contents() == old(buf.Contents()) + blk
  {
    ghost var d := buf.data[..];
    WritePieces(buf.data, buf.BiEnd(), Min(|blk|, buf.ContigSpace()), blk);
    RingAppends(d, buf.data[..], buf.BoPtr(), buf.o + buf.i, blk);
    hide Ring;
    buf.i := buf.i + |blk|;
  }

  /** Part of the output is copied. */
  method ReadOutput(buf: Buffer, blk: array<char>, len: nat, offset: nat)
    requires buf.Valid() && len <= blk.Length && len + offset <= buf.o
    requires blk != buf.data
    modifies blk
    ensures blk[..len] == buf.Output()[offset..offset + len] && blk[len..] == old(blk[len..])
  {
    hide Ring;
    PartOfPrefix(buf.Contents(), buf.o, offset, len);
    RingPart(buf.data[..], buf.BoPtr(), buf.o + buf.i, offset, len);
    hide Buffer.Contents, Buffer.Output, Buffer.BoPtr;
    ReadPieces(buf.data, buf.BoPtr(), blk, len, offset);
  }

  lemma PartOfPrefix(s: seq<char>, n: nat, from: nat, len: nat)
    requires from + len <= n <= |s|
    ensures s[..n][from..from + len] == s[from..from + len]
  {
  }

  /** In one or two pieces */
  method ReadPieces(data: array<char>, from: nat, blk: array<char>, len: nat, offset: nat)
    requires from < data.Length && len <= blk.Length && len + offset <= data.Length && blk != data
    modifies blk
    ensures blk[len..] == old(blk[len..])
    ensures blk[..len] ==
      if from + offset >= data.Length then data[from + offset - data.Length..from + offset - data.Length + len]
      else if from + offset + len <= data.Length then data[from + offset..from + offset + len]
      else data[from + offset..] + data[..from + offset + len - data.Length]
  {
    var firstBlock := data.Length - from;
    if firstBlock > offset {
      if firstBlock >= len + offset {
        CopyTo(blk, 0, data[from + offset..from + offset + len]);
        return;
      }
      CopyTo(blk, 0, data[from + offset..]);
      CopyTo(blk, firstBlock - offset, data[..len - firstBlock + offset]);
      return;
    }
    CopyTo(blk, 0, data[offset - firstBlock..offset - firstBlock + len]);
  }

  /** Bytes written at the boundary between output and input, with no input, are output. */
  method InjectBytes(buf: Buffer, msg: seq<char>)
    requires buf.Valid() && buf.i == 0 && 0 < |msg| <= buf.ContigSpace()
    modifies buf, buf.data
    ensures buf.Valid() && buf.i == 0 && buf.o == old(buf.o) + |msg|
    ensures buf.Contents() == old(buf.Contents()) + msg
  {
    ghost var d := buf.data[..];
    WritePieces(buf.data, buf.p, |msg|, msg);
    RingAppends(d, buf.data[..], buf.BoPtr(), buf.o, msg);
    hide Ring;
    buf.o := buf.o + |msg|;
    buf.p := Wrap(buf.p + |msg|, buf.data.Length);
  }

  /** The first `max` bytes from offset `at` on, the other ones from the start of the data on. */
  method WritePieces(data: array<char>, at: nat, max: nat, blk: seq<char>)
    requires 0 < |blk| <= data.Length && max <= |blk| && at + max <= data.Length && at < data.Length
    requires max == |blk| || at + max == data.Length
    modifies data
    ensures forall k | 0 <= k < |blk| :: data[..][Wrap(at + k, data.Length)] == blk[k]
    ensures forall x | 0 <= x < data.Length && (x < at || at + max <= x) && |blk| - max <= x :: data[x] == old(data[x])
  {
    forall k | 0 <= k < max {
      data[at + k] := blk[k];
    }
    forall k | max <= k < |blk| {
      data[k - max] := blk[k];
    }
    forall k | 0 <= k < |blk| ensures data[..][Wrap(at + k, data.Length)] == blk[k] {
      assert k >= max ==> data[k - max] == blk[k];
    }
  }

  /** buffer_slow_realign: without output, the input is moved to the start of the data. */
  method SlowRealign(buf: Buffer, swap: array<char>)
    requires buf.Valid() && buf.o == 0 && swap != buf.data && swap.Length >= buf.data.Length
    modifies buf, buf.data, swap
    ensures buf.Valid() && buf.p == 0 && buf.o == 0 && buf.i == old(buf.i)
    ensures buf.Contents() == old(buf.Contents()) == buf.data[..buf.i]
  {
    hide Ring;
    if buf.i > 0 {
      Unroll(buf.data, buf.p, buf.i, swap);
    }
    buf.p := 0;
    RingBlocks(buf.data[..], 0, buf.i);
    assert buf.data[..][0..buf.i] == buf.data[..buf.i];
  }

  /** One block is moved in place; of two, the second waits in the swap buffer while the first is moved. */
  method Unroll(data: array<char>, p: nat, n: nat, swap: array<char>)
    requires p < data.Length && 0 < n <= data.Length && swap != data && swap.Length >= data.Length
    modifies data, swap
    ensures data[..n] == Ring(old(data[..]), p, n)
  {
    var block1, block2 := n, 0;
    if p + n > data.Length {
      block1 := data.Length - p;
      block2 := p + n - data.Length;
    }
    ghost var first, second := data[p..p + block1], data[..block2];
    assert Ring(data[..], p, n) == first + second by {
      RingBlocks(data[..], p, n);
    }
    hide Ring;
    if block2 > 0 {
      CopyTo(swap, 0, data[..block2]);
      assert swap[..block2] == second;
    }
    CopyTo(data, 0, data[p..p + block1]);
    assert data[..block1] == first;
    if block2 > 0 {
      CopyTo(data, block1, swap[..block2]);
    }
  }
}
