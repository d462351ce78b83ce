/**
 * Message framing on the two pipes: an 8-byte length in native (little-endian)
 * order, then that many bytes.
 */
module Framing {
  import opened JsonValues
  import opened Sequences

  type Byte = x: int | 0 <= x < 256

  const HEADER := 8

  function Pow256(k: nat): (p: nat)
    ensures p >= 1
  {
    if k == 0 then 1 else 256 * Pow256(k - 1)
  }

  /** What one frame can carry: JSON text is never empty and its length fits the header. */
  type Message = m: seq<Byte> | 0 < |m| < Pow256(HEADER) witness [0]

  function EncodeLength(n: nat, width: nat): (h: seq<Byte>)
    requires n < Pow256(width)
    ensures |h| == width
  {
    if width == 0 then [] else [n % 256] + EncodeLength(n / 256, width - 1)
  }

  function DecodeLength(h: seq<Byte>): (n: nat)
    ensures n < Pow256(|h|)
  {
    if h == [] then 0 else h[0] + 256 * DecodeLength(h[1..])
  }

  lemma {:induction false} LengthRoundTrip(n: nat, width: nat)
    requires n < Pow256(width)
    ensures DecodeLength(EncodeLength(n, width)) == n
  {
    if width > 0 {
      LengthRoundTrip(n / 256, width - 1);
      assert EncodeLength(n, width)[1..] == EncodeLength(n / 256, width - 1);
    }
  }

  function Header(n: nat): (h: seq<Byte>)
    requires n < Pow256(HEADER)
    ensures |h| == HEADER && DecodeLength(h) == n
  {
    LengthRoundTrip(n, HEADER);
    EncodeLength(n, HEADER)
  }

  function Frame(m: Message): (f: seq<Byte>)
    ensures |f| == HEADER + |m|
  {
    Header(|m|) + m
  }

  function Stream(ms: seq<Message>): seq<Byte> {
    if ms == [] then [] else Frame(ms[0]) + Stream(ms[1..])
  }

  lemma StreamCons(m: Message, ms: seq<Message>)
    ensures Stream([m] + ms) == Header(|m|) + (m + Stream(ms))
  {
    assert ([m] + ms)[1..] == ms;
    Assoc(Header(|m|), m, Stream(ms));
  }

  lemma {:induction false} StreamConcat(a: seq<Message>, b: seq<Message>)
    ensures Stream(a + b) == Stream(a) + Stream(b)
  {
    if a == [] {
      assert a + b == b;
    } else {
      assert (a + b)[0] == a[0] && (a + b)[1..] == a[1..] + b;
      StreamConcat(a[1..], b);
    }
  }

  lemma StreamSnoc(a: seq<Message>, m: Message)
    ensures Stream(a + [m]) == Stream(a) + Frame(m)
  {
    StreamConcat(a, [m]);
    assert [m][1..] == [] && Stream([m]) == Frame(m) + [];
  }

  // ------------------------------------------------------- the bytes of a frame

  /** The bytes of an 8-byte length, lowest first. */
  predicate IsLength(h: seq<Byte>, n: nat) {
    && |h| == 8
    && h[0] == n % 0x100
    && h[1] == n / 0x100 % 0x100
    && h[2] == n / 0x1_0000 % 0x100
    && h[3] == n / 0x100_0000 % 0x100
    && h[4] == n / 0x1_0000_0000 % 0x100
    && h[5] == n / 0x100_0000_0000 % 0x100
    && h[6] == n / 0x1_0000_0000_0000 % 0x100
    && h[7] == n / 0x100_0000_0000_0000
  }

  /** A frame: eight bytes that hold the number of bytes to come, then these. */
  predicate IsFrame(f: seq<Byte>, m: seq<Byte>) {
    && |f| == 8 + |m| && |m| < 0x1_0000_0000_0000_0000
    && IsLength(f[..8], |m|) && f[8..] == m
  }

  /** Frames one after the other, and nothing else. */
  predicate IsStream(w: seq<Byte>, ms: seq<seq<Byte>>) {
    if ms == [] then w == []
    else
      var k := 8 + |ms[0]|;
      k <= |w| && IsFrame(w[..k], ms[0]) && IsStream(w[k..], ms[1..])
  }

  lemma Pow256Values()
    ensures Pow256(0) == 1 && Pow256(1) == 0x100 && Pow256(2) == 0x1_0000 && Pow256(3) == 0x100_0000
    ensures Pow256(4) == 0x1_0000_0000 && Pow256(5) == 0x100_0000_0000 && Pow256(6) == 0x1_0000_0000_0000
    ensures Pow256(7) == 0x100_0000_0000_0000 && Pow256(8) == 0x1_0000_0000_0000_0000
  {
    assert Pow256(4) == 256 * Pow256(3);
    assert Pow256(6) == 256 * Pow256(5);
  }

  /** A number cut at byte i. */
  lemma {:induction false} DecodeCut(h: seq<Byte>, i: nat)
    requires i <= |h|
    ensures DecodeLength(h) == DecodeLength(h[..i]) + Pow256(i) * DecodeLength(h[i..])
  {
    if i == 0 {
      assert h[..0] == [] && h[0..] == h;
    } else {
      var low, high := h[..i], h[i..];
      DecodeCut(h[1..], i - 1);
      assert low[1..] == h[1..][..i - 1] && h[1..][i - 1..] == high && low[0] == h[0];
      Shift(h[0], DecodeLength(low[1..]), Pow256(i - 1), DecodeLength(high));
    }
  }

  lemma Shift(b: int, low: int, p: int, high: int)
    ensures b + 256 * (low + p * high) == b + 256 * low + 256 * p * high
  {
    assert 256 * (p * high) == 256 * p * high;
  }

  lemma ByteAt(h: seq<Byte>, i: nat)
    requires i < |h|
    ensures h[i] == DecodeLength(h) / Pow256(i) % 256
    ensures i + 1 == |h| ==> h[i] == DecodeLength(h) / Pow256(i)
  {
    DecodeCut(h, i);
    Quotient(DecodeLength(h), DecodeLength(h[..i]), Pow256(i), DecodeLength(h[i..]));
    LowByte(h[i..]);
  }

  lemma LowByte(h: seq<Byte>)
    requires h != []
    ensures h[0] == DecodeLength(h) % 256 && (|h| == 1 ==> h[0] == DecodeLength(h))
  {
    Remainder(h[0], DecodeLength(h[1..]));
  }

  lemma Remainder(b: int, high: int)
    requires 0 <= b < 256
    ensures (b + 256 * high) % 256 == b
  {
  }

  lemma Quotient(n: nat, low: nat, d: nat, q: nat)
    requires low < d && n == low + d * q
    ensures n / d == q
  {
    var k: int := n / d - q;
    assert n == d * (n / d) + n % d;
    assert d * k == low - n % d;
    NoMultiple(d, k);
  }

  lemma NoMultiple(d: int, k: int)
    requires -d < d * k < d
    ensures k == 0
  {
  }

  /** The length goes out in eight bytes, the lowest first. */
  lemma LengthLayout(n: nat)
    requires n < Pow256(HEADER)
    ensures IsLength(Header(n), n) && n < 0x1_0000_0000_0000_0000
  {
    Pow256Values();
    forall i: nat | i < 8
      ensures Header(n)[i] == n / Pow256(i) % 256 && (i == 7 ==> Header(n)[i] == n / Pow256(i))
    {
      ByteAt(Header(n), i);
    }
  }

  lemma FrameLayout(m: Message)
    ensures IsFrame(Frame(m), m)
  {
    LengthLayout(|m|);
    SplitAt(Header(|m|), m);
  }

  /** What is written for a sequence of messages, byte by byte. */
  lemma {:induction false} StreamLayout(ms: seq<Message>)
    ensures IsStream(Stream(ms), ms)
  {
    if ms != [] {
      FrameLayout(ms[0]);
      SplitAt(Frame(ms[0]), Stream(ms[1..]));
      StreamLayout(ms[1..]);
    }
  }

  // ----------------------------------------------------------- pure decoding

  /** The complete frames at the front of a byte string, up to the first empty one. */
  function Complete(w: seq<Byte>): seq<Message>
    decreases |w|
  {
    if |w| < HEADER then []
    else
      var n := DecodeLength(w[..HEADER]);
      if n == 0 || n > |w| - HEADER then []
      else [w[HEADER..HEADER + n]] + Complete(w[HEADER + n..])
  }

  lemma FrameHead(m: Message, rest: seq<Byte>)
    ensures var w := Frame(m) + rest;
      && w[..HEADER] == Header(|m|)
      && w[HEADER..] == m + rest
      && w[HEADER..HEADER + |m|] == m
      && w[HEADER + |m|..] == rest
  {
    var w := Frame(m) + rest;
    assert w == Header(|m|) + (m + rest);
    SplitAt(Header(|m|), m + rest);
    SplitAt(m, rest);
    assert w[HEADER..HEADER + |m|] == w[HEADER..][..|m|];
    assert w[HEADER + |m|..] == w[HEADER..][|m|..];
  }

  lemma CompleteCons(m: Message, rest: seq<Byte>)
    ensures Complete(Frame(m) + rest) == [m] + Complete(rest)
  {
    FrameHead(m, rest);
  }

  lemma {:induction false} CompleteOfStream(ms: seq<Message>, rest: seq<Byte>)
    ensures Complete(Stream(ms) + rest) == ms + Complete(rest)
  {
    if ms == [] {
      assert Stream(ms) + rest == rest;
    } else {
      var m, t := ms[0], Stream(ms[1..]) + rest;
      assert Stream(ms) + rest == Frame(m) + t;
      calc {
        Complete(Stream(ms) + rest);
        Complete(Frame(m) + t);
        { CompleteCons(m, t); }
        [m] + Complete(t);
        { CompleteOfStream(ms[1..], rest); }
        [m] + (ms[1..] + Complete(rest));
        { assert ms == [m] + ms[1..]; }
        ms + Complete(rest);
      }
    }
  }

  lemma CutFirst(ms: seq<Message>, w: seq<Byte>, rest: seq<Byte>)
    requires ms != [] && w + rest == Stream(ms) && |w| < |Frame(ms[0])|
    ensures Complete(w) == [] && |rest| > |Stream(ms[1..])|
  {
    assert Frame(ms[0])[..|w|] == w by {
      assert (w + rest)[..|w|] == w;
    }
    if |w| >= HEADER {
      assert w[..HEADER] == Header(|ms[0]|);
    }
  }

  /** However a stream of frames is cut, what decodes is a prefix of what was sent. */
  lemma {:induction false} CutStream(ms: seq<Message>, w: seq<Byte>, rest: seq<Byte>)
    requires w + rest == Stream(ms)
    ensures Complete(w) <= ms
    ensures rest == [] ==> Complete(w) == ms
    ensures |rest| < HEADER + (if ms == [] then 0 else |ms[|ms| - 1]|) ==> |Complete(w)| >= |ms| - 1
    ensures ms != [] && rest != [] && |rest| <= HEADER + |ms[|ms| - 1]| ==> Complete(w) == ms[..|ms| - 1]
  {
    if ms == [] {
      assert w == [];
    } else if |w| < |Frame(ms[0])| {
      CutFirst(ms, w, rest);
      if |ms| > 1 {
        StreamLonger(ms[1..]);
      } else {
        assert ms[..0] == [];
      }
    } else {
      var w' := w[|Frame(ms[0])|..];
      CutLater(ms, w, rest);
      CutStream(ms[1..], w', rest);
      ConsPrefix(ms, Complete(w'));
    }
  }

  /** A first frame before the cut decodes to the first message. */
  lemma CutLater(ms: seq<Message>, w: seq<Byte>, rest: seq<Byte>)
    requires ms != [] && w + rest == Stream(ms) && |w| >= |Frame(ms[0])|
    ensures var w' := w[|Frame(ms[0])|..];
      w == Frame(ms[0]) + w' && w' + rest == Stream(ms[1..]) && Complete(w) == [ms[0]] + Complete(w')
  {
    Peel(Frame(ms[0]), Stream(ms[1..]), w, rest);
    CompleteCons(ms[0], w[|Frame(ms[0])|..]);
  }

  lemma ConsPrefix(ms: seq<Message>, c: seq<Message>)
    requires ms != [] && c <= ms[1..]
    ensures [ms[0]] + c <= ms
    ensures c == ms[1..] ==> [ms[0]] + c == ms
    ensures |ms| > 1 && c == ms[1..][..|ms| - 2] ==> [ms[0]] + c == ms[..|ms| - 1]
  {
    assert ms == [ms[0]] + ms[1..];
    if |ms| > 1 {
      assert ms[..|ms| - 1] == [ms[0]] + ms[1..][..|ms| - 2];
    }
  }

  lemma {:induction false} StreamLonger(ms: seq<Message>)
    requires ms != []
    ensures |Stream(ms)| >= HEADER + |ms[|ms| - 1]|
  {
    if |ms| > 1 {
      StreamLonger(ms[1..]);
    }
  }

  // ------------------------------------------------- the channel as a machine

  /** The fields of the reading side: bytes still due, bytes so far, messages handed on. */
  datatype Reader = Reader(remaining: nat, buffer: seq<Byte>, delivered: seq<seq<Byte>>)

  /**
   * One direction of the connection.  `sent` are the messages the writer took up,
   * `unsent` the rest of the current frame, `pipe` the bytes in transit; `awaited`
   * is the history of messages taken up and not yet handed on by the reader.
   */
  datatype Channel = Channel(
    sent: seq<Message>, awaited: seq<Message>,
    unsent: seq<Byte>, pipe: seq<Byte>, reader: Reader, shortHeader: bool)

  const EMPTY_CHANNEL := Channel([], [], [], [], Reader(0, [], []), false)

  /**
   * The first write of a frame moves at least the header: the server writes the
   * header alone, in one piece; for the client this is an assumption.  All other
   * writes and all body reads may be as short as one byte.
   */
  datatype ChannelStep = Begin(m: Message, k: nat) | Continue(k: nat) | ReadHeader | ReadBody(k: nat)

  predicate CanStep(c: Channel, l: ChannelStep) {
    match l
    case Begin(m, k) => c.unsent == [] && HEADER <= k <= |Frame(m)|
    case Continue(k) => 0 < k <= |c.unsent|
    case ReadHeader => !c.shortHeader && c.reader.remaining == 0 && c.pipe != []
    case ReadBody(k) => !c.shortHeader && 0 < k <= c.reader.remaining && k <= |c.pipe|
  }

  function Deliver(r: Reader, chunk: seq<Byte>): Reader
    requires |chunk| <= r.remaining
  {
    if |chunk| == r.remaining then Reader(0, [], r.delivered + [r.buffer + chunk])
    else Reader(r.remaining - |chunk|, r.buffer + chunk, r.delivered)
  }

  function DoStep(c: Channel, l: ChannelStep): Channel
    requires CanStep(c, l)
  {
    match l
    case Begin(m, k) =>
      c.(sent := c.sent + [m], awaited := c.awaited + [m], pipe := c.pipe + Frame(m)[..k], unsent := Frame(m)[k..])
    case Continue(k) =>
      c.(pipe := c.pipe + c.unsent[..k], unsent := c.unsent[k..])
    case ReadHeader =>
      // a read returns what is there, up to eight bytes
      if |c.pipe| < HEADER then c.(shortHeader := true, pipe := [])
      else c.(reader := c.reader.(remaining := DecodeLength(c.pipe[..HEADER])), pipe := c.pipe[HEADER..])
    case ReadBody(k) =>
      c.(reader := Deliver(c.reader, c.pipe[..k]), pipe := c.pipe[k..],
         awaited := if k == c.reader.remaining && c.awaited != [] then c.awaited[1..] else c.awaited)
  }

  function RunChannel(ls: seq<ChannelStep>): Option<Channel> {
    if ls == [] then Some(EMPTY_CHANNEL)
    else
      match RunChannel(ls[..|ls| - 1])
      case None => None
      case Some(c) => if CanStep(c, ls[|ls| - 1]) then Some(DoStep(c, ls[|ls| - 1])) else None
  }

  /** The part of the current frame the reader has taken from the pipe. */
  function Partial(r: Reader): seq<Byte>
    requires r.remaining + |r.buffer| < Pow256(HEADER)
  {
    if r.remaining == 0 then [] else Header(r.remaining + |r.buffer|) + r.buffer
  }

  /** The frames of `ms` are, in this order: taken by the reader, in transit, unsent. */
  ghost predicate Flow(ms: seq<Message>, part: seq<Byte>, pipe: seq<Byte>, unsent: seq<Byte>) {
    Stream(ms) == part + (pipe + unsent)
  }

  lemma FlowBegin(ms: seq<Message>, part: seq<Byte>, pipe: seq<Byte>, m: Message, k: nat)
    requires Flow(ms, part, pipe, []) && k <= |Frame(m)|
    ensures Flow(ms + [m], part, pipe + Frame(m)[..k], Frame(m)[k..])
  {
    var f := Frame(m);
    StreamSnoc(ms, m);
    assert pipe + [] == pipe;
    Assoc(part, pipe, f);
    FlowSplit(pipe, f, k);
  }

  lemma FlowSplit(a: seq<Byte>, b: seq<Byte>, k: nat)
    requires k <= |b|
    ensures a + b == (a + b[..k]) + b[k..]
  {
  }

  /** At a frame boundary the bytes in transit start with a whole header. */
  lemma FlowHeader(ms: seq<Message>, pipe: seq<Byte>, unsent: seq<Byte>)
    requires Flow(ms, [], pipe, unsent) && pipe != []
    requires ms != [] ==> |unsent| <= |ms[|ms| - 1]|
    ensures ms != [] && |pipe| >= HEADER && DecodeLength(pipe[..HEADER]) == |ms[0]|
    ensures Flow(ms, Header(|ms[0]|), pipe[HEADER..], unsent)
  {
    var w := pipe + unsent;
    assert Stream(ms) == w;
    assert ms != [];
    StreamLonger(ms);
    var tail := Stream(ms[1..]);
    assert ms == [ms[0]] + ms[1..];
    StreamCons(ms[0], ms[1..]);
    SplitAt(Header(|ms[0]|), ms[0] + tail);
    assert pipe[..HEADER] == w[..HEADER];
    assert pipe[HEADER..] + unsent == w[HEADER..];
  }

  lemma FlowMore(ms: seq<Message>, part: seq<Byte>, pipe: seq<Byte>, unsent: seq<Byte>, k: nat)
    requires Flow(ms, part, pipe, unsent) && k <= |pipe|
    ensures Flow(ms, part + pipe[..k], pipe[k..], unsent)
  {
    var a, b := pipe[..k], pipe[k..];
    assert pipe == a + b;
    Assoc(a, b, unsent);
    Assoc(part, a, b + unsent);
  }

  lemma FlowEnd(ms: seq<Message>, n: nat, body: seq<Byte>, pipe: seq<Byte>, unsent: seq<Byte>)
    requires 0 < n < Pow256(HEADER) && n == |body|
    requires Flow(ms, Header(n) + body, pipe, unsent)
    ensures ms != [] && ms[0] == body && Flow(ms[1..], [], pipe, unsent)
  {
    assert ms != [];
    var tail := Stream(ms[1..]);
    Assoc(Header(|ms[0]|), ms[0], tail);
    Assoc(Header(n), body, pipe + unsent);
    SplitAt(Header(|ms[0]|), ms[0] + tail);
    SplitAt(Header(n), body + (pipe + unsent));
    SplitAt(ms[0], tail);
    SplitAt(body, pipe + unsent);
    assert [] + (pipe + unsent) == pipe + unsent;
  }

  ghost predicate ChannelInv(c: Channel) {
    var r := c.reader;
    && !c.shortHeader
    && r.remaining + |r.buffer| < Pow256(HEADER)
    && (r.remaining == 0 ==> r.buffer == [])
    && c.sent == r.delivered + c.awaited
    && Flow(c.awaited, Partial(r), c.pipe, c.unsent)
    && (c.sent == [] ==> c.unsent == [])
    && (c.sent != [] ==> |c.unsent| <= |c.sent[|c.sent| - 1]|)
  }

  lemma BoundaryHeader(c: Channel)
    requires ChannelInv(c) && c.reader.remaining == 0 && c.pipe != []
    ensures c.awaited != [] && |c.pipe| >= HEADER && DecodeLength(c.pipe[..HEADER]) == |c.awaited[0]|
    ensures Flow(c.awaited, Header(|c.awaited[0]|), c.pipe[HEADER..], c.unsent)
  {
    if c.awaited != [] {
      assert c.sent[|c.sent| - 1] == c.awaited[|c.awaited| - 1];
    }
    FlowHeader(c.awaited, c.pipe, c.unsent);
  }

  lemma BodyBytes(c: Channel, k: nat)
    requires ChannelInv(c) && CanStep(c, ReadBody(k))
    ensures Flow(c.awaited, Header(c.reader.remaining + |c.reader.buffer|) + (c.reader.buffer + c.pipe[..k]),
                 c.pipe[k..], c.unsent)
  {
    var r := c.reader;
    FlowMore(c.awaited, Partial(r), c.pipe, c.unsent, k);
    Assoc(Header(r.remaining + |r.buffer|), r.buffer, c.pipe[..k]);
  }

  lemma MessageEnds(c: Channel, k: nat)
    requires ChannelInv(c) && CanStep(c, ReadBody(k)) && k == c.reader.remaining
    ensures c.awaited != [] && c.awaited[0] == c.reader.buffer + c.pipe[..k]
    ensures Flow(c.awaited[1..], [], c.pipe[k..], c.unsent)
  {
    BodyBytes(c, k);
    FlowEnd(c.awaited, k + |c.reader.buffer|, c.reader.buffer + c.pipe[..k], c.pipe[k..], c.unsent);
  }

  lemma WriteStepInv(c: Channel, l: ChannelStep)
    requires ChannelInv(c) && CanStep(c, l) && (l.Begin? || l.Continue?)
    ensures ChannelInv(DoStep(c, l))
  {
    if l.Begin? {
      FlowBegin(c.awaited, Partial(c.reader), c.pipe, l.m, l.k);
      Assoc(c.reader.delivered, c.awaited, [l.m]);
    } else {
      FlowSplit(c.pipe, c.unsent, l.k);
    }
  }

  lemma ReadHeaderInv(c: Channel)
    requires ChannelInv(c) && CanStep(c, ReadHeader)
    ensures ChannelInv(DoStep(c, ReadHeader))
  {
    BoundaryHeader(c);
    assert Header(|c.awaited[0]|) + [] == Header(|c.awaited[0]|);
  }

  lemma ReadMoreInv(c: Channel, k: nat)
    requires ChannelInv(c) && CanStep(c, ReadBody(k)) && k < c.reader.remaining
    ensures ChannelInv(DoStep(c, ReadBody(k)))
  {
    BodyBytes(c, k);
  }

  lemma ReadLastInv(c: Channel, k: nat)
    requires ChannelInv(c) && CanStep(c, ReadBody(k)) && k == c.reader.remaining
    ensures ChannelInv(DoStep(c, ReadBody(k)))
  {
    MessageEnds(c, k);
    var d := DoStep(c, ReadBody(k));
    assert c.awaited == [c.awaited[0]] + d.awaited;
    Assoc(c.reader.delivered, [c.awaited[0]], d.awaited);
    assert d.sent == d.reader.delivered + d.awaited;
  }

  lemma ChannelStepInv(c: Channel, l: ChannelStep)
    requires ChannelInv(c) && CanStep(c, l)
    ensures ChannelInv(DoStep(c, l))
  {
    if l.ReadHeader? {
      ReadHeaderInv(c);
    } else if l.ReadBody? {
      if l.k == c.reader.remaining {
        ReadLastInv(c, l.k);
      } else {
        ReadMoreInv(c, l.k);
      }
    } else {
      WriteStepInv(c, l);
    }
  }

  lemma {:induction false} ChannelRunInv(ls: seq<ChannelStep>)
    requires RunChannel(ls).Some?
    ensures ChannelInv(RunChannel(ls).value)
  {
    if ls != [] {
      ChannelRunInv(ls[..|ls| - 1]);
      ChannelStepInv(RunChannel(ls[..|ls| - 1]).value, ls[|ls| - 1]);
    }
  }

  /**
   * For every schedule of short writes and reads the messages delivered are a
   * prefix of the messages sent, all of them once the bytes are consumed, and no
   * header was ever read short.
   */
  lemma FramingRefinement(ls: seq<ChannelStep>)
    requires RunChannel(ls).Some?
    ensures var c := RunChannel(ls).value;
      && c.reader.delivered <= c.sent
      && (c.pipe == [] && c.unsent == [] ==> c.reader.delivered == c.sent)
      && !c.shortHeader
      && (c.reader.remaining == 0 && c.pipe != [] ==> |c.pipe| >= HEADER)
      && (c.reader.remaining > 0 ==> |c.pipe| + |c.unsent| >= c.reader.remaining)
  {
    ChannelRunInv(ls);
    var c := RunChannel(ls).value;
    if c.reader.remaining > 0 {
      MidMessage(c);
    } else if c.pipe != [] {
      BoundaryHeader(c);
    } else if c.unsent == [] {
      assert Stream(c.awaited) == [];
      assert c.awaited == [];
    }
  }

  /** While a message is open, all its missing bytes are in transit or unsent. */
  lemma MidMessage(c: Channel)
    requires ChannelInv(c) && c.reader.remaining > 0
    ensures |c.pipe| + |c.unsent| >= c.reader.remaining
  {
    var r, ms := c.reader, c.awaited;
    var n := r.remaining + |r.buffer|;
    assert ms != [];
    var tail := Stream(ms[1..]);
    Assoc(Header(n), r.buffer, c.pipe + c.unsent);
    SplitAt(Header(n), r.buffer + (c.pipe + c.unsent));
    Assoc(Header(|ms[0]|), ms[0], tail);
    SplitAt(Header(|ms[0]|), ms[0] + tail);
    assert |ms[0]| == n;
  }

  lemma ChannelSnoc(ls: seq<ChannelStep>, l: ChannelStep)
    ensures RunChannel(ls + [l]) ==
            if RunChannel(ls).Some? && CanStep(RunChannel(ls).value, l)
            then Some(DoStep(RunChannel(ls).value, l)) else None
  {
    assert (ls + [l])[..|ls|] == ls;
  }

  /**
   * The schedules there are: a message is begun when the last one is written out, with any
   * first write of at least the eight bytes of the header, and all other writes and reads
   * may move any number of the bytes there are.
   */
  lemma ScheduleIff(ls: seq<ChannelStep>, m: Message, k: nat)
    requires RunChannel(ls).Some?
    ensures var c := RunChannel(ls).value;
      && (RunChannel(ls + [Begin(m, k)]).Some? <==> c.unsent == [] && 8 <= k <= 8 + |m|)
      && (RunChannel(ls + [Continue(k)]).Some? <==> 1 <= k <= |c.unsent|)
      && (RunChannel(ls + [ReadHeader]).Some? <==> c.reader.remaining == 0 && c.pipe != [])
      && (RunChannel(ls + [ReadBody(k)]).Some? <==> 1 <= k <= c.reader.remaining && k <= |c.pipe|)
  {
    ChannelRunInv(ls);
    ChannelSnoc(ls, Begin(m, k));
    ChannelSnoc(ls, Continue(k));
    ChannelSnoc(ls, ReadHeader);
    ChannelSnoc(ls, ReadBody(k));
  }

  /** Everything sent has been delivered. */
  ghost predicate Drained(ls: seq<ChannelStep>, sent: seq<Message>) {
    RunChannel(ls).Some? && RunChannel(ls).value.reader.delivered == sent
  }

  lemma DrainStep(c: Channel) returns (l: ChannelStep)
    requires ChannelInv(c) && (c.pipe != [] || c.unsent != [])
    ensures CanStep(c, l) && DoStep(c, l).sent == c.sent
    ensures |DoStep(c, l).pipe| + 2 * |DoStep(c, l).unsent| < |c.pipe| + 2 * |c.unsent|
  {
    if c.pipe == [] {
      l := Continue(|c.unsent|);
    } else if c.reader.remaining == 0 {
      l := ReadHeader;
      BoundaryHeader(c);
    } else {
      l := ReadBody(if |c.pipe| < c.reader.remaining then |c.pipe| else c.reader.remaining);
    }
  }

  /** From every reachable state of the channel some schedule delivers all that was sent. */
  lemma {:induction false} ChannelDrains(ls: seq<ChannelStep>) returns (more: seq<ChannelStep>)
    requires ls == [] || RunChannel(ls).Some?
    ensures RunChannel(ls).Some? && Drained(ls + more, RunChannel(ls).value.sent)
    decreases if RunChannel(ls).Some? then |RunChannel(ls).value.pipe| + 2 * |RunChannel(ls).value.unsent| else 0
  {
    ChannelRunInv(ls);
    var c := RunChannel(ls).value;
    if c.pipe == [] && c.unsent == [] {
      more := [];
      assert ls + more == ls;
      FramingRefinement(ls);
    } else {
      var l := DrainStep(c);
      ChannelSnoc(ls, l);
      var rest := ChannelDrains(ls + [l]);
      more := [l] + rest;
      Assoc(ls, [l], rest);
    }
  }
}
