/** ASCII <-> Base64 conversion as described in section 4.3.2.4 of RFC 1421, and the 30-bit variant. Characters
    and bytes are numbers below 256. */
module Base64 {
  function Upper(): (s: string)
    ensures |s| == 26
  { "ABCDEFGHIJKLMNOPQRSTUVWXYZ" }

  function Lower(): (s: string)
    ensures |s| == 26
  { "abcdefghijklmnopqrstuvwxyz" }

  function Other(): (s: string)
    ensures |s| == 12
  { "0123456789+/" }

  /** base64tab, in three pieces */
  function Base64Tab(v: nat): char
    requires v < 64
  {
    if v < 26 then Upper()[v] else if v < 52 then Lower()[v - 26] else Other()[v - 52]
  }

  /** From '+' to 'z': the value of the character plus one, above '#', which stands for none. */
  function FromPlus(): (s: string)
    ensures |s| == 22
  { "b###cXYZ[\\]^_`a###d###" }

  function FromUpper(): (s: string)
    ensures |s| == 26
  { "$%&'()*+,-./0123456789:;<=" }

  function Between(): (s: string)
    ensures |s| == 6
  { "######" }

  function FromLower(): (s: string)
    ensures |s| == 26
  { ">?@ABCDEFGHIJKLMNOPQRSTUVW" }

  /** base64rev, in four pieces */
  function Base64Rev(b: nat): char
    requires b < 80
  {
    if b < 22 then FromPlus()[b]
    else if b < 48 then FromUpper()[b - 22]
    else if b < 54 then Between()[b - 48]
    else FromLower()[b - 54]
  }

  /** The special value of the padding character. */
  const PADV := 64
  const PAD := 61

  type Byte = x: int | 0 <= x < 256

  lemma UpperIs(k: nat)
    requires k < 26
    ensures Upper()[k] as int == 65 + k && FromUpper()[k] as int == 36 + k
  {
  }

  lemma LowerIs(k: nat)
    requires k < 26
    ensures Lower()[k] as int == 97 + k && FromLower()[k] as int == 62 + k
  {
  }

  lemma OtherIs(k: nat)
    requires k < 12
    ensures Other()[k] as int == if k < 10 then 48 + k else if k == 10 then 43 else 47
  {
  }

  lemma PlusIs(k: nat)
    requires k < 22
    ensures FromPlus()[k] as int ==
      if k == 0 then 98 else if k == 4 then 99 else if 5 <= k < 15 then 83 + k else if k == 18 then 100 else 35
  {
  }

  lemma TabIs(v: nat)
    requires v < 64
    ensures Base64Tab(v) as int ==
      if v < 26 then 65 + v else if v < 52 then 71 + v else if v < 62 then v - 4 else if v == 62 then 43 else 47
  {
    hide Upper, Lower, Other, FromPlus, FromUpper, Between, FromLower;
    if v < 26 {
      UpperIs(v);
    } else if v < 52 {
      LowerIs(v - 26);
    } else {
      OtherIs(v - 52);
    }
  }

  function Tab(v: nat): (c: Byte)
    requires v < 64
  {
    TabIs(v);
    Base64Tab(v) as int
  }

  /** The value of a character: less than 64, the special value of padding, or -1. */
  function Rev(c: Byte): int {
    var b := (c - 43) % 256;
    if b > 79 then -1 else Base64Rev(b) as int - 36
  }

  lemma BetweenIs(k: nat)
    requires k < 6
    ensures Between()[k] == '#'
  {
  }

  /** The digits and the four other characters */
  lemma RevLow(c: Byte)
    requires 43 <= c < 65
    ensures Rev(c) ==
      if c == 43 then 62 else if c == 47 then 63 else if 48 <= c <= 57 then c + 4 else if c == PAD then PADV else -1
  {
    hide Upper, Lower, Other, FromPlus, FromUpper, Between, FromLower;
    PlusIs(c - 43);
  }

  lemma RevUpper(c: Byte)
    requires 65 <= c <= 90
    ensures Rev(c) == c - 65
  {
    hide Upper, Lower, Other, FromPlus, FromUpper, Between, FromLower;
    UpperIs(c - 65);
  }

  lemma RevBetween(c: Byte)
    requires 90 < c < 97
    ensures Rev(c) == -1
  {
    hide Upper, Lower, Other, FromPlus, FromUpper, Between, FromLower;
    BetweenIs(c - 91);
  }

  lemma RevLower(c: Byte)
    requires 97 <= c <= 122
    ensures Rev(c) == c - 71
  {
    hide Upper, Lower, Other, FromPlus, FromUpper, Between, FromLower;
    LowerIs(c - 97);
  }

  lemma RevOutside(c: Byte)
    requires c < 43 || 122 < c
    ensures Rev(c) == -1
  {
    hide Upper, Lower, Other, FromPlus, FromUpper, Between, FromLower;
  }

  lemma RevIs(c: Byte)
    ensures Rev(c) ==
      if c == 43 then 62 else if c == 47 then 63 else if 48 <= c <= 57 then c + 4 else if c == PAD then PADV
      else if 65 <= c <= 90 then c - 65 else if 97 <= c <= 122 then c - 71 else -1
  {
    hide Rev;
    if 43 <= c < 65 {
      RevLow(c);
    } else if 65 <= c <= 90 {
      RevUpper(c);
    } else if 90 < c < 97 {
      RevBetween(c);
    } else if 97 <= c <= 122 {
      RevLower(c);
    } else {
      RevOutside(c);
    }
  }

  /** Decoding a character undoes encoding a value. */
  lemma RevOfTab(v: nat)
    requires v < 64
    ensures Rev(Tab(v)) == v
  {
    TabIs(v);
    RevIs(Tab(v));
    hide Rev;
  }

  // ---------------------------------------------------------------------------
  // Quads

  /** Four characters for one to three bytes. */
  function EncodeChunk(b: seq<Byte>): (q: seq<Byte>)
    requires 0 < |b| <= 3
    ensures |q| == 4
  {
    if |b| == 3 then [Tab(b[0] / 4), Tab(b[0] % 4 * 16 + b[1] / 16), Tab(b[1] % 16 * 4 + b[2] / 64), Tab(b[2] % 64)]
    else if |b| == 2 then [Tab(b[0] / 4), Tab(b[0] % 4 * 16 + b[1] / 16), Tab(b[1] % 16 * 4), PAD]
    else [Tab(b[0] / 4), Tab(b[0] % 4 * 16), PAD, PAD]
  }

  ghost function Encode(s: seq<Byte>): seq<Byte> {
    if s == [] then [] else if |s| < 3 then EncodeChunk(s) else EncodeChunk(s[..3]) + Encode(s[3..])
  }

  lemma {:induction false} EncodeLength(s: seq<Byte>)
    ensures |Encode(s)| == (|s| + 2) / 3 * 4
  {
    hide EncodeChunk;
    if |s| >= 3 {
      EncodeLength(s[3..]);
    }
  }

  /** The values of XXXX, XXX=, XX== and X===, where only X stands for six bits. */
  predicate QuadOk(v: seq<int>) {
    && |v| == 4 && (forall k | 0 <= k < 4 :: 0 <= v[k] <= PADV)
    && v[0] != PADV && (v[1] == PADV ==> v[2] == PADV) && (v[2] == PADV ==> v[3] == PADV)
  }

  function Pads(v: seq<int>): (n: nat) {
    if v == [] then 0 else Pads(v[..|v| - 1]) + if v[|v| - 1] == PADV then 1 else 0
  }

  /** The three bytes written for a quad, of which those that stand for padding do not count. */
  function Bytes3(v: seq<int>): (b: seq<Byte>)
    requires |v| == 4 && forall k | 0 <= k < 4 :: 0 <= v[k] <= PADV
    ensures |b| == 3
  {
    [(v[0] * 4 + v[1] / 16) % 256, (v[1] * 16 + v[2] / 4) % 256, (v[2] * 64 + v[3]) % 256]
  }

  datatype Decoded = Bad | Good(bytes: seq<Byte>)

  ghost function Values(q: seq<Byte>): (v: seq<int>)
    ensures |v| == |q|
  {
    if q == [] then [] else Values(q[..|q| - 1]) + [Rev(q[|q| - 1])]
  }

  lemma PadsOfQuad(v: seq<int>)
    requires |v| == 4
    ensures Pads(v) == (if v[0] == PADV then 1 else 0) + (if v[1] == PADV then 1 else 0)
      + (if v[2] == PADV then 1 else 0) + (if v[3] == PADV then 1 else 0)
  {
    assert v[..3][..2] == v[..2] && v[..2][..1] == v[..1] && v[..1][..0] == [];
    assert Pads(v[..1]) == if v[0] == PADV then 1 else 0;
    assert Pads(v[..2]) == Pads(v[..1]) + if v[1] == PADV then 1 else 0;
    assert Pads(v[..3]) == Pads(v[..2]) + if v[2] == PADV then 1 else 0;
  }

  ghost function DecodeQuad(q: seq<Byte>): Decoded
    requires |q| == 4
  {
    var v := Values(q);
    if QuadOk(v) then
      PadsOfQuad(v);
      Good(Bytes3(v)[..3 - Pads(v)])
    else Bad
  }

  ghost function Decode(s: seq<Byte>): Decoded
    requires |s| % 4 == 0
  {
    if s == [] then Good([])
    else
      match DecodeQuad(s[..4])
      case Bad => Bad
      case Good(b) =>
        match Decode(s[4..])
        case Bad => Bad
        case Good(rest) => Good(b + rest)
  }

  lemma ValuesOfQuad(q: seq<Byte>)
    requires |q| == 4
    ensures Values(q) == [Rev(q[0]), Rev(q[1]), Rev(q[2]), Rev(q[3])]
  {
    hide Rev;
    assert q[..3][..2] == q[..2] && q[..2][..1] == q[..1] && q[..1][..0] == [];
    assert Values(q[..1]) == [Rev(q[0])];
    assert Values(q[..2]) == [Rev(q[0]), Rev(q[1])];
    assert Values(q[..3]) == [Rev(q[0]), Rev(q[1]), Rev(q[2])];
  }

  /** The six-bit values of one to three bytes, and padding. */
  function Six(b: seq<Byte>): (v: seq<int>)
    requires 0 < |b| <= 3
  {
    if |b| == 3 then [b[0] / 4, b[0] % 4 * 16 + b[1] / 16, b[1] % 16 * 4 + b[2] / 64, b[2] % 64]
    else if |b| == 2 then [b[0] / 4, b[0] % 4 * 16 + b[1] / 16, b[1] % 16 * 4, PADV]
    else [b[0] / 4, b[0] % 4 * 16, PADV, PADV]
  }

  lemma ValuesOfChunk(b: seq<Byte>)
    requires 0 < |b| <= 3
    ensures Values(EncodeChunk(b)) == Six(b)
  {
    ValuesOfQuad(EncodeChunk(b));
    hide Tab, Rev, Values;
    RevIs(PAD);
    RevOfTab(b[0] / 4);
    if |b| == 1 {
      RevOfTab(b[0] % 4 * 16);
    } else {
      RevOfTab(b[0] % 4 * 16 + b[1] / 16);
      if |b| == 2 {
        RevOfTab(b[1] % 16 * 4);
      } else {
        RevOfTab(b[1] % 16 * 4 + b[2] / 64);
        RevOfTab(b[2] % 64);
      }
    }
  }

  lemma FirstByte(b: Byte, x: nat)
    requires x < 16
    ensures (b / 4 * 4 + (b % 4 * 16 + x) / 16) % 256 == b
  {
    assert (b % 4 * 16 + x) / 16 == b % 4;
  }

  lemma SecondByte(a: Byte, b: Byte, y: nat)
    requires y < 4
    ensures ((a % 4 * 16 + b / 16) * 16 + (b % 16 * 4 + y) / 4) % 256 == b
  {
    assert (b % 16 * 4 + y) / 4 == b % 16;
    assert (a % 4 * 16 + b / 16) * 16 + b % 16 == a % 4 * 256 + b;
  }

  lemma ThirdByte(a: Byte, b: Byte)
    ensures ((a % 16 * 4 + b / 64) * 64 + b % 64) % 256 == b
  {
    assert (a % 16 * 4 + b / 64) * 64 + b % 64 == a % 16 * 256 + b;
  }

  lemma SixBack(b: seq<Byte>)
    requires 0 < |b| <= 3
    ensures QuadOk(Six(b)) && Pads(Six(b)) == 3 - |b| && Bytes3(Six(b))[..|b|] == b
  {
    PadsOfQuad(Six(b));
    hide Pads;
    FirstByte(b[0], if |b| == 1 then 0 else b[1] / 16);
    if |b| > 1 {
      SecondByte(b[0], b[1], if |b| == 2 then 0 else b[2] / 64);
    }
    if |b| > 2 {
      ThirdByte(b[1], b[2]);
    }
    assert Bytes3(Six(b))[0] == b[0];
    assert |b| > 1 ==> Bytes3(Six(b))[1] == b[1];
    assert |b| > 2 ==> Bytes3(Six(b))[2] == b[2];
  }

  lemma DecodeChunk(b: seq<Byte>)
    requires 0 < |b| <= 3
    ensures DecodeQuad(EncodeChunk(b)) == Good(b)
  {
    ValuesOfChunk(b);
    SixBack(b);
    hide EncodeChunk, Values, Six, Pads, Bytes3, QuadOk;
  }

  /** Whatever was encoded is decoded. */
  lemma {:induction false} RoundTrip(s: seq<Byte>)
    ensures |Encode(s)| % 4 == 0 && Decode(Encode(s)) == Good(s)
  {
    hide DecodeQuad, EncodeChunk;
    EncodeLength(s);
    if s == [] {
    } else if |s| < 3 {
      DecodeChunk(s);
      var q := EncodeChunk(s);
      assert q[..4] == q && q[4..] == [];
      assert s + [] == s;
    } else {
      RoundTrip(s[3..]);
      DecodeChunk(s[..3]);
      var q := EncodeChunk(s[..3]);
      assert Encode(s)[..4] == q && Encode(s)[4..] == Encode(s[3..]);
      assert s == s[..3] + s[3..];
    }
  }

  predicate Symbol(c: Byte) { 0 <= Rev(c) < 64 }

  /** The quads accepted are XXXX, XXX=, XX== and X===, which stand for three bytes down to none. */
  lemma QuadForms(q: seq<Byte>)
    requires |q| == 4
    ensures DecodeQuad(q).Good? <==>
      Symbol(q[0])
      && ((Symbol(q[1]) && Symbol(q[2]) && (Symbol(q[3]) || q[3] == PAD))
          || (q[2] == q[3] == PAD && (Symbol(q[1]) || q[1] == PAD)))
    ensures DecodeQuad(q).Good? ==>
      (|DecodeQuad(q).bytes| == if q[1] == PAD then 0 else if q[2] == PAD then 1 else if q[3] == PAD then 2 else 3)
  {
    ValuesOfQuad(q);
    forall k | 0 <= k < 4 ensures Rev(q[k]) == PADV <==> q[k] == PAD
      ensures Rev(q[k]) <= PADV
    {
      RevIs(q[k]);
    }
    hide Rev, Values;
    PadsOfQuad([Rev(q[0]), Rev(q[1]), Rev(q[2]), Rev(q[3])]);
    hide Pads, Bytes3;
  }

  // ---------------------------------------------------------------------------
  // The loops

  method Put4(out: array<Byte>, at: nat, q: seq<Byte>)
    requires |q| == 4 && at + 4 <= out.Length
    modifies out
    ensures out[..at + 4] == old(out[..at]) + q && out[at + 4..] == old(out[at + 4..])
  {
    out[at], out[at + 1], out[at + 2], out[at + 3] := q[0], q[1], q[2], q[3];
  }

  lemma EncodeNext(s: seq<Byte>, i: nat, done: seq<Byte>)
    requires i + 3 <= |s|
    ensures done + Encode(s[i..]) == done + EncodeChunk(s[i..i + 3]) + Encode(s[i + 3..])
  {
    hide EncodeChunk;
    assert s[i..][..3] == s[i..i + 3] && s[i..][3..] == s[i + 3..];
    var chunk, rest := EncodeChunk(s[i..i + 3]), Encode(s[i + 3..]);
    assert done + (chunk + rest) == done + chunk + rest;
  }

  lemma EncodeEnd(s: seq<Byte>, i: nat)
    requires i <= |s| < i + 3
    ensures Encode(s[i..]) == if i == |s| then [] else EncodeChunk(s[i..])
  {
  }

  /** a2base64: all that is written is within olen. */
  method A2base64(input: seq<Byte>, out: array<Byte>, olen: nat) returns (r: int)
    requires olen <= out.Length
    modifies out
    ensures var convlen := (|input| + 2) / 3 * 4;
      if convlen >= olen then r == -1 && out[..] == old(out[..])
      else (r == convlen && out[..convlen] == Encode(input) && out[convlen] == 0
            && out[convlen + 1..] == old(out[convlen + 1..]))
  {
    hide EncodeChunk, Encode;
    var convlen := (|input| + 2) / 3 * 4;
    EncodeLength(input);
    if convlen >= olen {
      return -1;
    }
    var i, o: nat := 0, 0;
    assert input[0..] == input;
    while |input| - i >= 3
      invariant i <= |input| && 4 * i == 3 * o && o + (|input| - i + 2) / 3 * 4 == convlen
      invariant out[..o] + Encode(input[i..]) == Encode(input) && out[convlen + 1..] == old(out[convlen + 1..])
    {
      EncodeNext(input, i, out[..o]);
      Put4(out, o, EncodeChunk(input[i..i + 3]));
      i, o := i + 3, o + 4;
    }
    EncodeEnd(input, i);
    if i < |input| {
      Put4(out, o, EncodeChunk(input[i..]));
      o := o + 4;
    }
    assert o == convlen && out[..o] == Encode(input);
    out[o] := 0;
    r := convlen;
  }

  /** The values read since the start of a quad, as long as they can be those of an accepted one. */
  predicate QuadSoFar(t: seq<int>) {
    && |t| < 4 && (forall k | 0 <= k < |t| :: 0 <= t[k] <= PADV)
    && (|t| > 1 ==> t[0] != PADV) && (|t| > 2 ==> t[1] == PADV ==> t[2] == PADV)
  }

  /** What the tests made on each character tell. */
  lemma NextValue(t: seq<int>, b: int)
    requires QuadSoFar(t) && b <= PADV
    ensures Pads(t + [b]) == Pads(t) + if b == PADV then 1 else 0
    ensures Pads(t) > 0 <==> PADV in t
    ensures var ok := 0 <= b && !(Pads(t) > 0 && b != PADV) && !(Pads(t) > 0 && |t| < 2);
      if |t| == 3 then ok <==> QuadOk(t + [b]) else ok <==> QuadSoFar(t + [b])
  {
    PadsSeen(t);
    assert (t + [b])[..|t|] == t;
    hide Pads;
  }

  lemma {:induction false} PadsSeen(t: seq<int>)
    ensures Pads(t) > 0 <==> PADV in t
  {
    if t != [] {
      PadsSeen(t[..|t| - 1]);
      assert t == t[..|t| - 1] + [t[|t| - 1]];
    }
  }

  /** A quad that cannot be an accepted one from its first values on */
  lemma {:induction false} NotOkSoFar(q: seq<Byte>, n: nat)
    requires |q| == 4 && 0 < n <= 4
    requires if n == 4 then !QuadOk(Values(q)) else !QuadSoFar(Values(q[..n]))
    ensures DecodeQuad(q) == Bad
  {
    ValuesPrefix(q, n);
    hide Values;
  }

  lemma {:induction false} ValuesPrefix(q: seq<Byte>, n: nat)
    requires n <= |q|
    ensures Values(q[..n]) == Values(q)[..n]
  {
    if n < |q| {
      assert q[..|q| - 1][..n] == q[..n];
      ValuesPrefix(q[..|q| - 1], n);
    } else {
      assert q[..n] == q;
    }
  }

  ghost function Join(b: seq<Byte>, d: Decoded): Decoded {
    if d.Bad? then Bad else Good(b + d.bytes)
  }

  lemma JoinNothing(d: Decoded)
    ensures Join([], d) == d
  {
    assert d.Good? ==> [] + d.bytes == d.bytes;
  }

  /** The characters of the quad number j, and those from there on. */
  ghost function QuadAt(s: seq<Byte>, j: nat): (q: seq<Byte>)
    requires 4 * j + 4 <= |s|
    ensures |q| == 4
  {
    s[4 * j..4 * j + 4]
  }

  ghost function DecodeFrom(s: seq<Byte>, j: nat): Decoded
    requires |s| % 4 == 0 && 4 * j <= |s|
  {
    assert (|s| - 4 * j) % 4 == 0;
    Decode(s[4 * j..])
  }

  /** One quad decoded, or found bad */
  lemma DecodeStep(s: seq<Byte>, b: seq<Byte>, j: nat)
    requires |s| % 4 == 0 && 4 * j + 4 <= |s|
    ensures match DecodeQuad(QuadAt(s, j))
      case Bad => Join(b, DecodeFrom(s, j)) == Bad
      case Good(x) => Join(b, DecodeFrom(s, j)) == Join(b + x, DecodeFrom(s, j + 1))
  {
    hide DecodeQuad;
    assert s[4 * j..][..4] == QuadAt(s, j) && s[4 * j..][4..] == s[4 * (j + 1)..];
    match DecodeQuad(QuadAt(s, j))
    case Bad =>
    case Good(x) =>
      if DecodeFrom(s, j + 1).Good? {
        assert b + (x + DecodeFrom(s, j + 1).bytes) == b + x + DecodeFrom(s, j + 1).bytes;
      }
  }

  /** Where base64dec is: j quads are done and gave the bytes `done`, and the first characters of the next
      one have the values t. */
  ghost predicate Decoding(s: seq<Byte>, j: nat, t: seq<int>, pad: nat, done: seq<Byte>) {
    && |s| % 4 == 0 && 4 * j + |t| <= |s| && |done| <= 3 * j
    && t == Values(s[4 * j..4 * j + |t|]) && pad == Pads(t) && QuadSoFar(t)
    && Join(done, DecodeFrom(s, j)) == Decode(s)
  }

  lemma DecodingStart(s: seq<Byte>)
    requires |s| % 4 == 0
    ensures Decoding(s, 0, [], 0, [])
  {
    assert s[0..] == s;
    JoinNothing(Decode(s));
  }

  lemma NoMoreQuads(s: seq<Byte>, j: nat, done: seq<Byte>)
    requires |s| == 4 * j
    ensures Join(done, DecodeFrom(s, j)) == Good(done)
  {
    assert s[4 * j..] == [];
    assert done + [] == done;
  }

  lemma ShortSoFar(t: seq<int>)
    requires QuadSoFar(t)
    ensures |t| < 4
  {
  }

  lemma DecodingEnd(s: seq<Byte>, j: nat, t: seq<int>, pad: nat, done: seq<Byte>)
    requires Decoding(s, j, t, pad, done) && |s| == 4 * j + |t|
    ensures t == [] && Decode(s) == Good(done)
  {
    hide Rev, Pads, Decode, DecodeFrom, Join, QuadOk, QuadSoFar, Values, DecodeQuad, QuadAt, Bytes3;
    ShortSoFar(t);
    assert |t| == 0;
    NoMoreQuads(s, j, done);
  }

  /** The tests made on one character */
  predicate Passes(t: seq<int>, pad: nat, b: int) {
    0 <= b && !(pad > 0 && b != PADV) && !(pad > 0 && |t| < 2)
  }

  lemma ValuesNext(s: seq<Byte>, j: nat, t: seq<int>)
    requires 4 * j + 4 <= |s| && |t| < 4 && t == Values(s[4 * j..4 * j + |t|])
    ensures t + [Rev(s[4 * j + |t|])] == Values(s[4 * j..4 * j + |t| + 1])
    ensures QuadAt(s, j)[..|t| + 1] == s[4 * j..4 * j + |t| + 1]
  {
    hide Rev;
    assert s[4 * j..4 * j + |t| + 1][..|t|] == s[4 * j..4 * j + |t|];
  }

  lemma RoomForQuad(s: seq<Byte>, j: nat, t: seq<int>)
    requires |s| % 4 == 0 && 4 * j + |t| < |s| && |t| < 4
    ensures 4 * j + 4 <= |s|
  {
  }

  lemma DecodingBad(s: seq<Byte>, j: nat, t: seq<int>, pad: nat, done: seq<Byte>)
    requires Decoding(s, j, t, pad, done) && 4 * j + |t| < |s| && !Passes(t, pad, Rev(s[4 * j + |t|]))
    ensures Decode(s) == Bad
  {
    hide Rev, Pads, Decode, DecodeFrom, Join, QuadOk, QuadSoFar, Values, DecodeQuad, QuadAt, Bytes3;
    ShortSoFar(t);
    RoomForQuad(s, j, t);
    var b := Rev(s[4 * j + |t|]);
    RevIs(s[4 * j + |t|]);
    ValuesNext(s, j, t);
    NextValue(t, b);
    DecodeStep(s, done, j);
    var q := QuadAt(s, j);
    assert q[..4] == q;
    NotOkSoFar(q, |t| + 1);
  }

  lemma DecodingMore(s: seq<Byte>, j: nat, t: seq<int>, pad: nat, done: seq<Byte>)
    requires Decoding(s, j, t, pad, done) && 4 * j + |t| < |s| && |t| < 3
    requires Passes(t, pad, Rev(s[4 * j + |t|]))
    ensures var b := Rev(s[4 * j + |t|]); Decoding(s, j, t + [b], pad + (if b == PADV then 1 else 0), done)
  {
    hide Rev, Pads, Decode, DecodeFrom, Join, QuadOk, QuadSoFar, Values, DecodeQuad, QuadAt, Bytes3;
    RoomForQuad(s, j, t);
    var b := Rev(s[4 * j + |t|]);
    RevIs(s[4 * j + |t|]);
    ValuesNext(s, j, t);
    NextValue(t, b);
  }

  lemma DecodingQuad(s: seq<Byte>, j: nat, t: seq<int>, pad: nat, done: seq<Byte>)
    requires Decoding(s, j, t, pad, done) && 4 * j + |t| < |s| && |t| == 3
    requires Passes(t, pad, Rev(s[4 * j + |t|]))
    ensures var b := Rev(s[4 * j + |t|]);
      var p := pad + if b == PADV then 1 else 0;
      QuadOk(t + [b]) && p <= 3 && Decoding(s, j + 1, [], 0, done + Bytes3(t + [b])[..3 - p])
  {
    assert Values(s[4 * (j + 1)..4 * (j + 1) + 0]) == [] && Pads([]) == 0 && QuadSoFar([]) by {
      RoomForQuad(s, j, t);
    }
    hide Rev, Pads, Decode, DecodeFrom, Join, QuadSoFar, Values, DecodeQuad, QuadAt, Bytes3;
    RoomForQuad(s, j, t);
    var b := Rev(s[4 * j + |t|]);
    RevIs(s[4 * j + |t|]);
    ValuesNext(s, j, t);
    NextValue(t, b);
    DecodeStep(s, done, j);
    var q := QuadAt(s, j);
    assert q[..4] == q;
    DecodedQuad(q, t + [b]);
  }

  lemma DecodedQuad(quad: seq<Byte>, v: seq<int>)
    requires |quad| == 4 && v == Values(quad) && QuadOk(v)
    ensures Pads(v) <= 3 && DecodeQuad(quad) == Good(Bytes3(v)[..3 - Pads(v)])
  {
    PadsOfQuad(v);
  }

  /** base64dec. The bytes that padding stands for are written as well, still within the length asked for. */
  method Base64dec(input: seq<Byte>, out: array<Byte>, olen: nat) returns (r: int)
    requires olen <= out.Length
    modifies out
    ensures |input| % 4 != 0 ==> r == -1 && out[..] == old(out[..])
    ensures |input| % 4 == 0 && olen < |input| / 4 * 3 ==> r == -2 && out[..] == old(out[..])
    ensures |input| % 4 == 0 && olen >= |input| / 4 * 3 ==>
      out[|input| / 4 * 3..] == old(out[|input| / 4 * 3..])
      && match Decode(input)
         case Bad => r == -1
         case Good(b) => r == |b| <= |input| / 4 * 3 && out[..r] == b
  {
    if |input| % 4 != 0 {
      return -1;
    }
    if olen < |input| / 4 * 3 {
      return -2;
    }
    r := DecodeQuads(input, |input| / 4, out);
  }

  method DecodeQuads(input: seq<Byte>, n: nat, out: array<Byte>) returns (r: int)
    requires |input| == 4 * n && 3 * n <= out.Length
    modifies out
    ensures out[3 * n..] == old(out[3 * n..])
    ensures match Decode(input)
      case Bad => r == -1
      case Good(b) => r == |b| <= 3 * n && out[..r] == b
  {
    var convlen: nat, pad: nat, t: seq<int>, k: nat := 0, 0, [], 0;
    ghost var j: nat, done: seq<Byte> := 0, [];
    DecodingStart(input);
    hide Decoding, Rev, Decode, Pads, Bytes3, Values, Join, DecodeFrom, QuadSoFar, QuadOk;
    while k < |input|
      invariant k == 4 * j + |t| <= |input| && |t| < 4 && convlen <= 3 * j
      invariant done == out[..convlen] && Decoding(input, j, t, pad, done) && out[3 * n..] == old(out[3 * n..])
    {
      var b := Rev(input[k]);
      if b < 0 || (pad > 0 && b != PADV) || (pad > 0 && |t| < 2) {
        DecodingBad(input, j, t, pad, done);
        return -1;
      }
      ghost var p := pad;
      if b == PADV {
        pad := pad + 1;
      }
      if |t| == 3 {
        convlen, done := FinishQuad(input, j, t, b, p, pad, out, convlen, done, 3 * n);
        pad, t, j := 0, [], j + 1;
      } else {
        DecodingMore(input, j, t, p, done);
        t := t + [b];
      }
      k := k + 1;
    }
    DecodingEnd(input, j, t, pad, done);
    r := convlen;
  }

  method FinishQuad(ghost s: seq<Byte>, ghost j: nat, t: seq<int>, b: int, ghost p: nat, pad: nat, out: array<Byte>,
                    at: nat, ghost done: seq<Byte>, ghost end: nat) returns (convlen: nat, ghost all: seq<Byte>)
    requires Decoding(s, j, t, p, done) && 4 * j + |t| < |s| && |t| == 3 && b == Rev(s[4 * j + |t|]) && Passes(t, p, b)
    requires at + 3 <= end <= out.Length && at <= 3 * j && pad == p + (if b == PADV then 1 else 0) && done == out[..at]
    modifies out
    ensures convlen <= 3 * j + 3 && convlen <= end && all == out[..convlen] && Decoding(s, j + 1, [], 0, all)
    ensures out[end..] == old(out[end..])
  {
    hide Decoding, Rev, Decode, Pads, Bytes3, Values, Join, DecodeFrom, QuadSoFar;
    DecodingQuad(s, j, t, p, done);
    all := done + Bytes3(t + [b])[..3 - pad];
    convlen := PutQuad(out, at, t + [b], pad, end);
  }

  /** The three bytes of a quad are written, and those that padding stands for do not count. */
  method PutQuad(out: array<Byte>, at: nat, v: seq<int>, pad: nat, ghost end: nat) returns (convlen: nat)
    requires QuadOk(v) && pad <= 3 && at + 3 <= end <= out.Length
    modifies out
    ensures convlen == at + 3 - pad && out[..convlen] == old(out[..at]) + Bytes3(v)[..3 - pad]
    ensures out[end..] == old(out[end..])
  {
    var b := Bytes3(v);
    out[at], out[at + 1], out[at + 2] := b[0], b[1], b[2];
    hide Bytes3;
    convlen := at + 3 - pad;
    assert out[..at + 3] == old(out[..at]) + b;
    assert out[..convlen] == out[..at + 3][..convlen];
  }

  // ---------------------------------------------------------------------------
  // 30 bits in five characters

  const BITS30 := 0x4000_0000
  const BITS32 := 0x1_0000_0000

  /** 64 to the power of k */
  function Pow64(k: nat): (p: nat)
    ensures p > 0
  {
    if k == 0 then 1 else 64 * Pow64(k - 1)
  }

  lemma Powers()
    ensures Pow64(0) == 1 && Pow64(1) == 64 && Pow64(2) == 0x1000 && Pow64(3) == 0x4_0000 && Pow64(4) == 0x100_0000
    ensures Pow64(5) == BITS30
  {
    assert Pow64(2) == 64 * Pow64(1);
    assert Pow64(3) == 64 * Pow64(2);
    assert Pow64(4) == 64 * Pow64(3);
  }

  /** u in base 64, in k digits, the most significant one first */
  ghost function Encode30(u: nat, k: nat): (r: seq<Byte>)
    requires u < Pow64(k)
    ensures |r| == k
  {
    if k == 0 then []
    else
      DigitFits(u, Pow64(k - 1));
      [Tab(u / Pow64(k - 1))] + Encode30(u % Pow64(k - 1), k - 1)
  }

  lemma DigitFits(u: nat, p: nat)
    requires 0 < p && u < 64 * p
    ensures u / p < 64 && u == u / p * p + u % p && u % p < p
  {
    var d := u / p;
    assert u == d * p + u % p;
    assert 64 * p - d * p == (64 - d) * p > 0;
    Positive(64 - d, p);
  }

  lemma Positive(x: int, p: nat)
    requires x * p > 0
    ensures x > 0
  {
  }

  lemma {:induction false} PowersMultiply(a: nat, b: nat)
    ensures Pow64(a) * Pow64(b) == Pow64(a + b)
  {
    if a > 0 {
      PowersMultiply(a - 1, b);
      assert 64 * Pow64(a - 1) * Pow64(b) == 64 * (Pow64(a - 1) * Pow64(b));
    }
  }

  /** The top six of the low 30 bits of a word, and what shifting them out leaves */
  lemma TopDigit(w: nat, d: nat, x: nat)
    requires w < BITS32 && d < 64 && x < 0x100_0000 && w % BITS30 == d * 0x100_0000 + x
    ensures w / 0x100_0000 % 64 == d
    ensures w * 64 % BITS32 % BITS30 == x * 64
  {
    var h := w / BITS30;
    assert w == h * BITS30 + d * 0x100_0000 + x && h < 4;
    assert w / 0x100_0000 == h * 64 + d;
    assert w * 64 == (h * 16 + d / 4) * BITS32 + (d % 4 * BITS30 + x * 64);
    assert w * 64 % BITS32 == d % 4 * BITS30 + x * 64;
  }

  /** (in >> 24) & 0x3F and in <<= 6 on a word w whose low 30 bits are those of r after 5 - k shifts */
  lemma Shifted(w: nat, r: nat, k: nat)
    requires 0 < k <= 5 && w < BITS32 && r < Pow64(k) && w % BITS30 == r * Pow64(5 - k)
    ensures w / 0x100_0000 % 64 == r / Pow64(k - 1)
    ensures w * 64 % BITS32 % BITS30 == r % Pow64(k - 1) * Pow64(6 - k)
  {
    Powers();
    var p, s := Pow64(k - 1), Pow64(5 - k);
    PowersMultiply(k - 1, 5 - k);
    assert Pow64(6 - k) == 64 * s && Pow64(k) == 64 * p;
    DigitFits(r, p);
    var d, x := r / p, r % p;
    Scaled(r, d, p, x, s);
    TopDigit(w, d, x * s);
    assert x * s * 64 == x * (64 * s);
  }

  lemma Scaled(r: nat, d: nat, p: nat, x: nat, s: nat)
    requires r == d * p + x && x < p && s > 0 && p * s == 0x100_0000
    ensures r * s == d * 0x100_0000 + x * s && x * s < 0x100_0000
  {
    assert r * s == d * p * s + x * s && d * p * s == d * (p * s);
    assert p * s - x * s == (p - x) * s;
  }

  /** s30tob64 */
  method S30tob64(n: int, out: array<Byte>)
    requires -0x8000_0000 <= n < 0x8000_0000 && out.Length >= 6
    modifies out
    ensures n % BITS30 < Pow64(5) && out[..5] == Encode30(n % BITS30, 5) && out[5] == 0
    ensures out[6..] == old(out[6..])
  {
    Powers();
    hide Tab, Pow64;
    var w: nat, i: nat := n % BITS32, 0;
    ghost var r: nat := n % BITS30;
    assert Pow64(0) == 1;
    while i < 5
      invariant i <= 5 && w < BITS32 && r < Pow64(5 - i) && w % BITS30 == r * Pow64(i)
      invariant out[..i] + Encode30(r, 5 - i) == Encode30(n % BITS30, 5) && out[6..] == old(out[6..])
    {
      Shifted(w, r, 5 - i);
      DigitFits(r, Pow64(4 - i));
      ghost var done, e := out[..i], Encode30(r % Pow64(4 - i), 4 - i);
      out[i] := Tab(w / 0x100_0000 % 64);
      assert done + ([Tab(r / Pow64(4 - i))] + e) == (done + [Tab(r / Pow64(4 - i))]) + e;
      r := r % Pow64(4 - i);
      w, i := w * 64 % BITS32, i + 1;
    }
    out[5] := 0;
  }

  /** The number that k characters stand for, or -1 */
  ghost function Decode30(s: seq<Byte>): int {
    if s == [] then 0
    else
      var before, b := Decode30(s[..|s| - 1]), Rev(s[|s| - 1]);
      if before < 0 || b < 0 || b == PADV then -1 else before * 64 + b
  }

  /** b64tos30 */
  method B64tos30(input: seq<Byte>) returns (out: int)
    requires |input| >= 5
    ensures out == Decode30(input[..5])
  {
    hide Rev;
    out := 0;
    var i := 0;
    while i < 5
      invariant 0 <= i <= 5 && out == Decode30(input[..i]) && out >= 0
    {
      assert input[..i + 1][..i] == input[..i];
      var b := Rev(input[i]);
      if b < 0 || b == PADV {
        StaysInvalid(input[..5], i + 1);
        assert input[..5][..i + 1] == input[..i + 1];
        return -1;
      }
      out := out * 64 + b;
      i := i + 1;
    }
  }

  lemma {:induction false} StaysInvalid(s: seq<Byte>, k: nat)
    requires k <= |s| && Decode30(s[..k]) < 0
    ensures Decode30(s) == -1
  {
    hide Rev;
    if k < |s| {
      assert s[..|s| - 1][..k] == s[..k];
      StaysInvalid(s[..|s| - 1], k);
    } else {
      assert s[..k] == s;
    }
  }

  /** b64tos30 after s30tob64 keeps the 30 lower bits. */
  lemma {:induction false} RoundTrip30(u: nat, k: nat, before: seq<Byte>)
    requires u < Pow64(k) && Decode30(before) >= 0
    ensures Decode30(before + Encode30(u, k)) == Decode30(before) * Pow64(k) + u
    decreases k
  {
    hide Rev, Tab;
    if k == 0 {
      assert before + [] == before;
    } else {
      var p := Pow64(k - 1);
      DigitFits(u, p);
      var d := u / p;
      var b := before + [Tab(d)];
      OneDigit(before, d);
      RoundTrip30(u % p, k - 1, b);
      hide Decode30, Pow64;
      assert b + Encode30(u % p, k - 1) == before + Encode30(u, k);
      DigitBack(Decode30(before), d, p);
    }
  }

  lemma OneDigit(before: seq<Byte>, d: nat)
    requires Decode30(before) >= 0 && d < 64
    ensures Decode30(before + [Tab(d)]) == Decode30(before) * 64 + d
  {
    hide Rev, Tab;
    RevOfTab(d);
    assert (before + [Tab(d)])[..|before|] == before;
  }

  lemma DigitBack(x: int, d: nat, p: nat)
    ensures (x * 64 + d) * p == x * (64 * p) + d * p
  {
  }

  /** Every int, positive or negative, is recovered modulo 2^30. */
  lemma RoundTripS30(n: int)
    ensures n % BITS30 < Pow64(5) && Decode30(Encode30(n % BITS30, 5)) == n % BITS30
  {
    Powers();
    RoundTrip30(n % BITS30, 5, []);
    assert [] + Encode30(n % BITS30, 5) == Encode30(n % BITS30, 5);
  }
}
