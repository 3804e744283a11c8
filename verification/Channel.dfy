/** struct channel: bytes put at one end come out at the other one in the same order, whatever the order of
    the calls and wherever the ring wraps. */
module Channel {
  import opened Counting
  import opened RingBuffer

  const INFINITE_FORWARD := 0xFFFF_FFFF
  const WORD := 0x1_0000_0000
  const TOTAL_RANGE := 0x1_0000_0000_0000_0000

  /** The value of a 32-bit word assigned to an int. */
  function AsInt(x: int): (r: int)
    ensures -0x8000_0000 <= r < 0x8000_0000
  {
    if x % WORD < 0x8000_0000 then x % WORD else x % WORD - WORD
  }

  /** A byte count kept in 64 bits. */
  function Total(n: nat): nat {
    n % TOTAL_RANGE
  }

  lemma TotalAdds(n: nat, more: nat)
    ensures Total(Total(n) + more) == Total(n + more)
  {
  }

  class Channel {
    const buf: Buffer
    const maxRewrite: nat
    var toForward: nat
    var total: nat
    var shutR: bool
    var shutW: bool
    var shutWNow: bool
    var wakeWrite: bool
    var readPartial: bool
    var writePartial: bool
    ghost var put: seq<char>
    ghost var taken: seq<char>

    /** Whatever was put and not taken is in the buffer, in order, and `total` counts all that was put. */
    ghost predicate Valid()
      reads this, buf, buf.data
    {
      && buf.Valid() && maxRewrite < buf.data.Length < 0x8000_0000
      && toForward <= INFINITE_FORWARD
      && put == taken + buf.Contents()
      && total == Total(|put|)
    }

    /** channel_init */
    constructor (b: Buffer, reserve: nat)
      requires b.Valid() && b.data.Length < 0x8000_0000 && b.i == b.o == 0 && reserve < b.data.Length
      ensures Valid() && buf == b && maxRewrite == reserve && put == [] && taken == [] && toForward == 0 && !shutR
    {
      buf, maxRewrite, toForward, total := b, reserve, 0, 0;
      shutR, shutW, shutWNow, wakeWrite, readPartial, writePartial := false, false, false, false, false, false;
      put, taken := [], [];
    }

    /** channel_full */
    function Full(): bool
      requires Valid()
      reads this, buf, buf.data
    {
      var rem := buf.data.Length - buf.o - buf.i;
      if rem == 0 then true
      else if toForward >= buf.data.Length then false
      else rem - maxRewrite + buf.o + toForward <= 0
    }

    /** A byte has room when there is any and, once the output and what is to be forwarded have left, more than the
        reserve is free. */
    lemma FullExactly()
      requires Valid()
      ensures Full() <==>
        !(buf.o + buf.i < buf.data.Length
          && (toForward >= buf.data.Length || buf.data.Length - buf.i + toForward > maxRewrite))
    {
    }

    /** Once everything to be forwarded has left, the input leaves the reserve free. */
    ghost predicate ReserveKept()
      reads this, buf
    {
      toForward == INFINITE_FORWARD || buf.i + maxRewrite <= buf.data.Length + toForward
    }

    /** buffer_reserved: the subtraction is unsigned, and its result is read as an int. */
    function Reserved(): nat
      requires Valid()
      reads this, buf, buf.data
    {
      var ret := AsInt(maxRewrite - toForward - buf.o);
      if toForward == INFINITE_FORWARD then 0 else if ret <= 0 then 0 else ret
    }

    /** What the design wants reserved: the part of maxRewrite that will not be freed by leaving bytes. */
    ghost function Wanted(): nat
      requires Valid()
      reads this, buf, buf.data
    {
      var ret := maxRewrite - toForward - buf.o;
      if toForward == INFINITE_FORWARD || ret <= 0 then 0 else ret
    }

    ghost predicate Exact()
      reads this, buf
    {
      toForward == INFINITE_FORWARD || !(0x8000_0000 < toForward + buf.o - maxRewrite < WORD)
    }

    /** The unsigned subtraction gives what is wanted unless more than 2^31 bytes above the reserve are
        about to leave. */
    lemma ReservedExact()
      requires Valid()
      ensures Reserved() == Wanted() <==> Exact()
      ensures Wanted() <= Reserved()
    {
    }

    /** When it wraps, what is reserved can exceed the whole buffer, although nothing has to be. */
    lemma ReservedTooMuch()
      requires Valid() && toForward != INFINITE_FORWARD
      requires 0x8000_0000 < toForward + buf.o - maxRewrite < WORD - buf.data.Length
      ensures Wanted() == 0 && Reserved() == WORD - (toForward + buf.o - maxRewrite) && MaxLen() < 0
    {
    }

    /** Bytes taken and left make what was put: nothing is lost, repeated or reordered. */
    lemma Fifo()
      requires Valid()
      ensures put == taken + buf.Output() + buf.Input()
    {
      assert buf.Contents() == buf.Output() + buf.Input();
    }

    /** bi_putchr */
    method PutChr(c: char) returns (r: int)
      requires Valid()
      modifies this, buf, buf.data
      ensures Valid() && taken == old(taken)
      ensures r == if old(shutR) then -2
        else if old(
          buf.o + buf.i < buf.data.Length
          && (toForward >= buf.data.Length || buf.data.Length - buf.i + toForward > maxRewrite)) then 1
        else -1
      ensures old(ReserveKept()) ==> ReserveKept()
      ensures Stored(old(put), old(toForward), old(buf.o), if r == 1 then [c] else [])
      ensures r != 1 ==> buf.p == old(buf.p) && buf.data[..] == old(buf.data[..])
      ensures wakeWrite == (old(wakeWrite) || r == -1) && readPartial == (old(readPartial) || r == 1)
      ensures unchanged(`shutR, `shutW, `shutWNow, `writePartial)
    {
      hide Ring, Total, Buffer.Contents, Buffer.BiEnd, Buffer.BoPtr;
      if shutR {
        return -2;
      }
      FullExactly();
      hide Channel.Full;
      if Full() {
        wakeWrite := true;
        return -1;
      }
      AppendBytes(buf, [c]);
      put := put + [c];
      readPartial := true;
      PassOne();
      TotalAdds(|old(put)|, 1);
      total := Total(total + 1);
      r := 1;
    }

    /** The byte just put goes to the output when there is something to forward. */
    method PassOne()
      requires buf.Valid() && buf.i > 0 && toForward <= INFINITE_FORWARD
      modifies this`toForward, buf
      ensures buf.Valid() && buf.Contents() == old(buf.Contents())
      ensures buf.o == old(buf.o) + Min(1, old(toForward)) && buf.i == old(buf.i) - Min(1, old(toForward))
      ensures toForward == if old(toForward) == INFINITE_FORWARD then INFINITE_FORWARD
        else old(toForward) - Min(1, old(toForward))
    {
      if toForward >= 1 {
        if toForward != INFINITE_FORWARD {
          toForward := toForward - 1;
        }
        buf.Adv(1);
      }
    }

    /** The bytes are put, and those that may be forwarded, as long as to_forward lasts, are output. */
    ghost predicate Stored(put0: seq<char>, forward0: nat, o0: nat, blk: seq<char>)
      reads this, buf
    {
      && put == put0 + blk
      && buf.o == o0 + Min(|blk|, forward0)
      && toForward == if forward0 == INFINITE_FORWARD then forward0 else forward0 - Min(|blk|, forward0)
    }

    /** channel_forward and __channel_forward: pending input is output, and what is still to come is added to
        to_forward. The result is what the output gained and will gain. It is all that was asked for if and only if
        the sum fits in 32 bits, and a sum of 2^32 - 1 forwards without end. */
    method Forward(bytes: nat) returns (r: nat)
      requires Valid() && bytes < TOTAL_RANGE
      modifies this`toForward, buf
      ensures Valid() && (old(ReserveKept()) ==> ReserveKept())
      ensures buf.o == old(buf.o) + Min(bytes, old(buf.i)) && buf.i == old(buf.i) - Min(bytes, old(buf.i))
      ensures bytes == INFINITE_FORWARD || old(toForward) == INFINITE_FORWARD ==>
        r == bytes && toForward == INFINITE_FORWARD
      ensures bytes != INFINITE_FORWARD && old(toForward) != INFINITE_FORWARD ==>
        && r == buf.o + toForward - old(buf.o + toForward) <= bytes
        && (r == bytes <==> old(toForward) + bytes - old(buf.i) < WORD)
        && (toForward == INFINITE_FORWARD <==>
              bytes > old(buf.i) && (old(toForward) + bytes - old(buf.i)) % WORD == INFINITE_FORWARD)
    {
      hide Ring, Total, AsInt, Buffer.Contents, Buffer.BiEnd, Buffer.BoPtr;
      if bytes < WORD && bytes <= buf.i {
        buf.Adv(bytes);
        return bytes;
      }
      var forwarded := buf.i;
      buf.Adv(buf.i);
      if toForward == INFINITE_FORWARD {
        return bytes;
      }
      if bytes == INFINITE_FORWARD {
        toForward := bytes;
        return bytes;
      }
      var newForward := (toForward + bytes - forwarded) % WORD;
      r := forwarded;
      if newForward <= toForward {
        newForward := 0x8000_0000;
      }
      if newForward > toForward {
        r := r + newForward - toForward;
        toForward := newForward;
      }
    }

    /** buffer_max_len */
    function MaxLen(): int
      requires Valid()
      reads this, buf, buf.data
    {
      buf.data.Length - Reserved()
    }

    /** How much fits now and at all: there must be room for it, and the reserve must be left free once the output and
        what is to be forwarded have left. */
    lemma RoomExactly(n: nat)
      requires Valid()
      ensures Exact() ==>
        (n <= MaxLen() - buf.o - buf.i <==>
          buf.o + buf.i + n <= buf.data.Length
          && (toForward == INFINITE_FORWARD || buf.i + n + maxRewrite <= buf.data.Length + toForward))
      ensures Exact() ==>
        (n <= MaxLen() <==>
          n <= buf.data.Length
          && (toForward == INFINITE_FORWARD || n + maxRewrite <= buf.data.Length + toForward + buf.o))
      ensures n <= MaxLen() - buf.o - buf.i ==>
        toForward == INFINITE_FORWARD || buf.i + n + maxRewrite <= buf.data.Length + toForward
    {
      ReservedExact();
    }

    /** bi_putblk: all of the block or nothing */
    method PutBlk(blk: seq<char>) returns (r: int)
      requires Valid() && |blk| < 0x8000_0000
      modifies this, buf, buf.data
      ensures Valid() && taken == old(taken)
      ensures r == if old(shutR) then -2
        else if |blk| <= old(MaxLen() - buf.o - buf.i) then |blk|
        else if |blk| > old(MaxLen()) then -3 else -1
      ensures old(Exact()) && !old(shutR) ==>
        (r == |blk| <==>
          old(buf.o + buf.i) + |blk| <= buf.data.Length
          && (old(toForward) == INFINITE_FORWARD
              || old(buf.i) + |blk| + maxRewrite <= buf.data.Length + old(toForward)))
      ensures old(Exact()) && !old(shutR) ==>
        (r == -3 <==>
          |blk| > buf.data.Length
          || (old(toForward) != INFINITE_FORWARD
              && |blk| + maxRewrite > buf.data.Length + old(toForward + buf.o)))
      ensures old(ReserveKept()) ==> ReserveKept()
      ensures Stored(old(put), old(toForward), old(buf.o), if r > 0 then blk else [])
      ensures r <= 0 ==> buf.p == old(buf.p) && buf.data[..] == old(buf.data[..])
      ensures wakeWrite == (old(wakeWrite) || r == -1) && readPartial == (old(readPartial) || r > 0)
      ensures unchanged(`shutR, `shutW, `shutWNow, `writePartial)
    {
      hide Ring, Total, AsInt, Buffer.Contents, Buffer.BiEnd, Buffer.BoPtr;
      if shutR {
        return -2;
      }
      RoomExactly(|blk|);
      var max := MaxLen();
      if |blk| > max - (buf.i + buf.o) {
        if |blk| > max {
          return -3;
        }
        wakeWrite := true;
        return -1;
      }
      if |blk| == 0 {
        return 0;
      }
      Store(blk);
      r := |blk|;
    }

    /** The block goes into the buffer, and what is to be forwarded to the output. */
    method Store(blk: seq<char>)
      requires Valid() && 0 < |blk| <= buf.data.Length - buf.o - buf.i
      modifies this, buf, buf.data
      ensures Valid() && taken == old(taken) && readPartial
      ensures Stored(old(put), old(toForward), old(buf.o), blk) && buf.i + buf.o == old(buf.i + buf.o) + |blk|
      ensures unchanged(`shutR, `shutW, `shutWNow, `wakeWrite, `writePartial)
    {
      hide Ring, Total, AsInt, Buffer.Contents, Buffer.BiEnd, Buffer.BoPtr;
      AppendBytes(buf, blk);
      put := put + blk;
      TotalAdds(|old(put)|, |blk|);
      total := Total(total + |blk|);
      if toForward > 0 {
        var fwd := |blk|;
        if toForward != INFINITE_FORWARD {
          if fwd > toForward {
            fwd := toForward;
          }
          toForward := toForward - fwd;
        }
        buf.Adv(fwd);
      }
      readPartial := true;
    }

    /** bo_inject: straight to the output, when no input is pending and the block fits without wrapping. */
    method Inject(msg: seq<char>) returns (r: int)
      requires Valid() && buf.i == 0
      modifies this, buf, buf.data
      ensures Valid() && taken == old(taken) && buf.i == 0
      ensures var room := if old(buf.o) == 0 then buf.data.Length
          else if old(buf.o <= buf.p) then buf.data.Length - old(buf.p) else buf.data.Length - old(buf.o);
        r == if |msg| == 0 then -1 else if |msg| > buf.data.Length then -2 else if |msg| > room then room else -1
      ensures put == old(put) + (if r == -1 then msg else []) && (old(ReserveKept()) ==> ReserveKept())
      ensures unchanged(`toForward, `shutR, `shutW, `shutWNow, `wakeWrite, `readPartial, `writePartial)
    {
      hide Ring, Total, AsInt, Buffer.Contents, Buffer.BiEnd, Buffer.BoPtr;
      if |msg| == 0 {
        return -1;
      }
      if |msg| > buf.data.Length {
        return -2;
      }
      var max := buf.Realign();
      if |msg| > max {
        return max;
      }
      InjectBytes(buf, msg);
      put := put + msg;
      TotalAdds(|old(put)|, |msg|);
      total := Total(total + |msg|);
      r := -1;
    }

    /** bo_skip: the first bytes of the output have been read. */
    method Skip(len: nat)
      requires Valid() && len <= buf.o
      modifies this, buf
      ensures Valid() && put == old(put) && taken == old(taken + buf.Output()[..len])
      ensures old(ReserveKept()) ==> ReserveKept()
      ensures buf.o == old(buf.o) - len && buf.i == old(buf.i) && writePartial
      ensures unchanged(`toForward, `total, `shutR, `shutW, `shutWNow, `wakeWrite, `readPartial)
    {
      hide Ring, Total, AsInt, Buffer.BiEnd, Buffer.BoPtr;
      taken := taken + buf.Output()[..len];
      assert buf.Contents() == buf.Output()[..len] + buf.Contents()[len..];
      buf.Drop(len);
      writePartial := true;
    }

    /** buffer_slow_realign on the buffer of a channel without output */
    method RealignInput(swap: array<char>)
      requires Valid() && buf.o == 0 && swap != buf.data && swap.Length >= buf.data.Length
      modifies buf, buf.data, swap
      ensures Valid() && buf.p == 0 && buf.i == old(buf.i) && buf.o == 0
    {
      hide Ring, Total;
      SlowRealign(buf, swap);
    }

    /** bo_getblk: len bytes of the output from an offset on, or nothing. */
    method GetBlk(blk: array<char>, len: nat, offset: nat) returns (r: int)
      requires Valid() && len <= blk.Length && blk != buf.data
      modifies blk
      ensures Valid()
      ensures r == if shutW then -1 else if len + offset <= buf.o then len else if shutWNow then -1 else 0
      ensures !shutW && len + offset <= buf.o ==>
        blk[..len] == buf.Output()[offset..offset + len] && blk[len..] == old(blk[len..])
      ensures r < 0 || len + offset > buf.o ==> blk[..] == old(blk[..])
    {
      if shutW {
        return -1;
      }
      if len + offset > buf.o {
        return if shutW || shutWNow then -1 else 0;
      }
      ReadOutput(buf, blk, len, offset);
      r := len;
    }

    /** bo_getline: up to and including the first newline. Without a newline, what there is comes only when
        the room given or the channel is full, or no more is expected. No pipe is attached. */
    method GetLine(str: array<char>, len: nat) returns (ret: int)
      requires Valid() && len <= str.Length && str != buf.data
      modifies str
      ensures Valid()
      ensures var n := LineLen(buf.Output()[..Min(len, buf.o)]);
        && ret == (if shutW || buf.o == 0 then (if shutW || shutWNow then -1 else 0)
             else if 0 < n < len && buf.Output()[n - 1] != '\n' && !Full() && !shutWNow then 0 else n)
        && (ret > 0 ==> str[..n] == buf.Output()[..n] && (n < Min(len, buf.o) ==> str[n] == '\0'))
    {
      hide Ring, Total, LineLen, AsInt, Buffer.Contents, Buffer.BiEnd, Buffer.BoPtr;
      var max: nat := len;
      ret := 0;
      if shutW || buf.o == 0 {
        if shutW || shutWNow {
          ret := -1;
        }
        if max > 0 {
          str[0] := '\0';
        }
        return;
      }
      if max > buf.o {
        max := buf.o;
        str[max - 1] := '\0';
      }
      var n := CopyLine(buf, str, max);
      ret := n;
      if ret > 0 && ret < len && (ret < buf.o || !Full()) && str[n - 1] != '\n' && !(shutW || shutWNow) {
        ret := 0;
      }
      if n < max {
        str[n] := '\0';
      }
    }
  }

  /** An empty channel of 16 kB that is to forward 0x90000000 bytes refuses every block as too large for it. */
  method RefuseAll(blk: seq<char>) returns (r: int)
    requires |blk| < 0x8000_0000
    ensures r == -3
  {
    var buf := new Buffer(16384);
    var chn := new Channel(buf, 1024);
    var _ := chn.Forward(0x9000_0000);
    chn.ReservedTooMuch();
    r := chn.PutBlk(blk);
  }

  /** Two finite requests, and the channel forwards without end. */
  method FiniteWithoutEnd() returns (forward: nat)
    ensures forward == INFINITE_FORWARD
  {
    var buf := new Buffer(16384);
    var chn := new Channel(buf, 1024);
    var _ := chn.Forward(1);
    var _ := chn.Forward(INFINITE_FORWARD - 1);
    forward := chn.toForward;
  }

  /** Bytes of the output are copied until a newline is. */
  method CopyLine(buf: Buffer, str: array<char>, max: nat) returns (n: nat)
    requires buf.Valid() && max <= buf.o && max <= str.Length && str != buf.data
    modifies str
    ensures n == LineLen(buf.Output()[..max]) && str[..n] == buf.Output()[..n]
    ensures n < max ==> str[n - 1] == '\n'
  {
    n := 0;
    var p: nat := buf.BoPtr();
    ghost var out := buf.Output()[..max];
    while n < max
      invariant n <= max && (n < max ==> p == Place(buf.BoPtr(), n, buf.data.Length))
      invariant str[..n] == out[..n] && '\n' !in out[..n]
    {
      var c := buf.data[p];
      assert c == out[n];
      str[n] := c;
      assert str[..n + 1] == out[..n] + [c] == out[..n + 1];
      n := n + 1;
      if c == '\n' {
        break;
      }
      p := Wrap(p + 1, buf.data.Length);
    }
    LineEnds(out, n);
  }

  /** The length of the first line of s, newline included, or of all of s without any. */
  ghost function LineLen(s: seq<char>): (n: nat)
    ensures n <= |s|
  {
    if s == [] then 0 else if s[0] == '\n' then 1 else 1 + LineLen(s[1..])
  }

  lemma {:induction false} LineEnds(s: seq<char>, n: nat)
    requires n <= |s| && (n == |s| || (n > 0 && s[n - 1] == '\n'))
    requires forall k | 0 <= k < n - 1 :: s[k] != '\n'
    ensures LineLen(s) == n
  {
    if s != [] && s[0] != '\n' {
      LineEnds(s[1..], n - 1);
    }
  }
}
