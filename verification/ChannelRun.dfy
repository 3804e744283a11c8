/** Runs of calls on a channel: what is copied out of it is a prefix of what it accepted. */
module ChannelRun {
  import opened RingBuffer
  import opened Channel

  datatype Op =
    | PutOne(c: char) | PutBlock(blk: seq<char>) | Send(msg: seq<char>) | Schedule(bytes: nat)
    | Take(len: nat) | TakeLine(len: nat) | Unwrap | ShutRead | ShutWrite | ShutWriteSoon

  /** Lengths are ints, and the count of bytes to forward has 64 bits. */
  predicate Sized(op: Op) {
    (op.PutBlock? ==> |op.blk| < 0x8000_0000) && (op.Schedule? ==> op.bytes < TOTAL_RANGE)
  }

  function Offered(op: Op): seq<char> {
    match op
    case PutOne(c) => [c]
    case PutBlock(blk) => blk
    case Send(msg) => msg
    case _ => []
  }

  /** Callers inject only without pending input, move the input only without output, and skip what they have
      copied. */
  method Call(chn: Channel, op: Op, swap: array<char>) returns (sent: seq<char>, got: seq<char>)
    requires chn.Valid() && Sized(op) && swap != chn.buf.data && swap.Length >= chn.buf.data.Length
    modifies chn, chn.buf, chn.buf.data, swap
    ensures chn.Valid() && (sent == [] || sent == Offered(op))
    ensures chn.put == old(chn.put) + sent && chn.taken == old(chn.taken) + got
    ensures old(chn.ReserveKept()) ==> chn.ReserveKept()
    ensures op.PutOne? ==> sent == if old(chn.shutR || chn.Full()) then [] else [op.c]
    ensures op.PutBlock? ==>
      sent == if old(chn.shutR || |op.blk| > chn.MaxLen() - chn.buf.o - chn.buf.i) then [] else op.blk
    ensures op.Take? ==> |got| == if old(chn.shutW || op.len > chn.buf.o) then 0 else op.len
  {
    hide Ring, Total, AsInt, LineLen, Buffer.Contents, Buffer.BiEnd, Buffer.BoPtr;
    sent, got := [], [];
    match op
    case PutOne(c) =>
      var r := chn.PutChr(c);
      sent := if r == 1 then [c] else [];
    case PutBlock(blk) =>
      var r := chn.PutBlk(blk);
      sent := if r > 0 then blk else [];
    case Send(msg) =>
      if chn.buf.i == 0 {
        var r := chn.Inject(msg);
        sent := if r == -1 then msg else [];
      }
    case Schedule(bytes) =>
      var _ := chn.Forward(bytes);
    case Take(len) =>
      got := TakeBlock(chn, len);
    case TakeLine(len) =>
      got := TakeOneLine(chn, len);
    case Unwrap =>
      if chn.buf.o == 0 {
        chn.RealignInput(swap);
      }
    case ShutRead => chn.shutR := true;
    case ShutWrite => chn.shutW := true;
    case ShutWriteSoon => chn.shutWNow := true;
  }

  method TakeBlock(chn: Channel, len: nat) returns (got: seq<char>)
    requires chn.Valid()
    modifies chn, chn.buf
    ensures chn.Valid() && chn.put == old(chn.put) && chn.taken == old(chn.taken) + got
    ensures old(chn.ReserveKept()) ==> chn.ReserveKept()
    ensures |got| == if old(chn.shutW) || len > old(chn.buf.o) then 0 else len
  {
    hide Ring, Total, AsInt, Buffer.Contents, Buffer.BiEnd, Buffer.BoPtr;
    var blk := new char[len];
    var r := chn.GetBlk(blk, len, 0);
    got := [];
    if r > 0 {
      got := blk[..r];
      chn.Skip(r);
    }
  }

  method TakeOneLine(chn: Channel, len: nat) returns (got: seq<char>)
    requires chn.Valid()
    modifies chn, chn.buf
    ensures chn.Valid() && chn.put == old(chn.put) && chn.taken == old(chn.taken) + got
    ensures old(chn.ReserveKept()) ==> chn.ReserveKept()
  {
    hide Ring, Total, AsInt, LineLen, Buffer.Contents, Buffer.BiEnd, Buffer.BoPtr;
    var str := new char[len];
    var r := chn.GetLine(str, len);
    got := [];
    if r > 0 {
      got := str[..r];
      chn.Skip(r);
    }
  }

  /** On a channel that starts empty, whatever the calls: what was copied out is what was accepted, in the same
      order, but for what the buffer still holds; the counter has counted it all; and the reserve is free of input
      once what is to be forwarded has left. */
  method Run(chn: Channel, ops: seq<Op>, swap: array<char>) returns (sent: seq<char>, got: seq<char>)
    requires chn.Valid() && chn.put == [] && swap != chn.buf.data && swap.Length >= chn.buf.data.Length
    requires forall op | op in ops :: Sized(op)
    modifies chn, chn.buf, chn.buf.data, swap
    ensures chn.Valid() && sent == got + chn.buf.Output() + chn.buf.Input()
    ensures chn.total == Total(|sent|)
    ensures chn.toForward != INFINITE_FORWARD ==> chn.buf.i + chn.maxRewrite <= chn.buf.data.Length + chn.toForward
  {
    hide Ring, Total, AsInt, LineLen, Buffer.Contents, Buffer.Output, Buffer.Input, Buffer.BiEnd, Buffer.BoPtr;
    assert chn.taken == [] && chn.ReserveKept();
    sent, got := [], [];
    var k := 0;
    while k < |ops|
      invariant 0 <= k <= |ops| && chn.Valid() && chn.put == sent && chn.taken == got && chn.ReserveKept()
    {
      var more, out := Call(chn, ops[k], swap);
      sent, got := sent + more, got + out;
      k := k + 1;
    }
    chn.Fifo();
  }
}
