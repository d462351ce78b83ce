/** The loops at the four ends of the two pipes, proved against the framing. */
module PipeIo {
  import opened JsonValues
  import opened Framing
  import opened ServerPipeline
  import opened Sequences

  const EINTR := 4

  datatype WriteResult = Wrote(n: nat) | WriteFailed(errno: int)
  datatype ReadOutcome = Chunk(bytes: seq<Byte>) | ReadFailed(errno: int)

  /** Errors after which the client just tries again. */
  predicate Transient(errno: int) {
    errno == EAGAIN || errno == EINTR
  }

  /**
   * A pipe.  `content` are the bytes in transit, `history` all bytes ever written,
   * `again` bounds how often a call still fails for the moment only, `faults` counts
   * the calls that failed for good, and `lastErrno` is the error of the last that failed.
   */
  class Pipe {
    var content: seq<Byte>
    var again: nat
    ghost var history: seq<Byte>
    ghost var faults: nat
    ghost var lastErrno: int

    constructor (content: seq<Byte>, again: nat)
      ensures this.content == content && this.again == again && history == content
    {
      this.content := content;
      this.again := again;
      history := content;
      faults := 0;
    }

    /** A write may be short, and may fail. */
    method Write(data: seq<Byte>) returns (r: WriteResult)
      requires data != []
      modifies this
      ensures r.Wrote? ==> 0 < r.n <= |data| && content == old(content) + data[..r.n]
                           && history == old(history) + data[..r.n]
      ensures r.Wrote? ==> again == old(again)
      ensures r.WriteFailed? ==> content == old(content) && history == old(history)
      ensures again <= old(again) && (r.WriteFailed? && r.errno == 11 ==> again < old(again))
      ensures faults == old(faults) + if r.WriteFailed? && r.errno != 11 then 1 else 0
      ensures r.WriteFailed? ==> lastErrno == r.errno
    {
      if * {
        var n: nat :| 0 < n <= |data|;
        content, history := content + data[..n], history + data[..n];
        r := Wrote(n);
      } else if again > 0 {
        again, lastErrno := again - 1, EAGAIN;
        r := WriteFailed(EAGAIN);
      } else {
        var e :| 0 < e < 200 && e != EAGAIN;
        r, faults, lastErrno := WriteFailed(e), faults + 1, e;
      }
    }

    /** A write of at most PIPE_BUF bytes to a blocking pipe is whole or fails. */
    method WriteWhole(data: seq<Byte>) returns (r: WriteResult)
      requires data != []
      modifies this
      ensures r.Wrote? ==> content == old(content) + data && history == old(history) + data
      ensures r.WriteFailed? ==> content == old(content) && history == old(history)
      ensures again == old(again) && faults == old(faults) + if r.WriteFailed? then 1 else 0
      ensures r.WriteFailed? ==> lastErrno == r.errno
    {
      if * {
        content, history := content + data, history + data;
        r := Wrote(|data|);
      } else {
        var e :| 0 < e < 200;
        r, faults, lastErrno := WriteFailed(e), faults + 1, e;
      }
    }

    /** A read returns at least one byte if there is one, nothing at end of file; it may fail. */
    method Read(max: nat) returns (r: ReadOutcome)
      modifies this
      ensures r.Chunk? ==> |r.bytes| <= max && old(content) == r.bytes + content && again == old(again)
      ensures r.Chunk? && max > 0 && old(content) != [] ==> r.bytes != []
      ensures r.ReadFailed? ==> content == old(content)
      ensures again <= old(again) && (r.ReadFailed? && (r.errno == 4 || r.errno == 11) ==> again < old(again))
      ensures faults == old(faults) + if r.ReadFailed? && r.errno != 4 && r.errno != 11 then 1 else 0
      ensures history == old(history)
      ensures r.ReadFailed? ==> lastErrno == r.errno
    {
      var retry, fail: bool := *, *;
      if fail {
        var e :| 0 < e < 200 && e != 4 && e != 11;
        r, faults, lastErrno := ReadFailed(e), faults + 1, e;
      } else if retry && again > 0 {
        var interrupted: bool := *;
        var e := if interrupted then EINTR else EAGAIN;
        r, again, lastErrno := ReadFailed(e), again - 1, e;
      } else if max == 0 || content == [] {
        r := Chunk([]);
      } else {
        var n: nat :| 0 < n <= max && n <= |content|;
        r, content := Chunk(content[..n]), content[n..];
      }
    }

    /** The read of a header takes eight bytes, fewer only where the stream ends; it may fail. */
    method ReadHeader() returns (r: ReadOutcome)
      modifies this
      ensures r.Chunk? ==>
                && old(content) == r.bytes + content && again == old(again)
                && |r.bytes| == if |old(content)| < HEADER then |old(content)| else HEADER
      ensures r.ReadFailed? ==> content == old(content)
      ensures again <= old(again) && (r.ReadFailed? && (r.errno == 4 || r.errno == 11) ==> again < old(again))
      ensures faults == old(faults) + if r.ReadFailed? && r.errno != 4 && r.errno != 11 then 1 else 0
      ensures history == old(history)
      ensures r.ReadFailed? ==> lastErrno == r.errno
    {
      var retry, fail: bool := *, *;
      if fail {
        var e :| 0 < e < 200 && e != 4 && e != 11;
        r, faults, lastErrno := ReadFailed(e), faults + 1, e;
      } else if retry && again > 0 {
        var interrupted: bool := *;
        var e := if interrupted then EINTR else EAGAIN;
        r, again, lastErrno := ReadFailed(e), again - 1, e;
      } else {
        var n := if |content| < HEADER then |content| else HEADER;
        r, content := Chunk(content[..n]), content[n..];
      }
    }
  }

  // ------------------------------------------------------------ request reader

  /** The requests among messages, up to the first that does not parse. */
  function Parsed(parse: seq<Byte> -> Option<Json>, ms: seq<Message>): seq<QueuedRequest> {
    if ms == [] then []
    else
      match parse(ms[0])
      case None => []
      case Some(j) => [Req(j)] + Parsed(parse, ms[1..])
  }

  /** What the reader queues from a stream of bytes. */
  function Accepted(parse: seq<Byte> -> Option<Json>, w: seq<Byte>): seq<QueuedRequest> {
    Parsed(parse, Complete(w))
  }

  /** The same, header by header and body by body. */
  function Stepwise(parse: seq<Byte> -> Option<Json>, w: seq<Byte>): seq<QueuedRequest>
    decreases |w|
  {
    if |w| < HEADER then []
    else
      var n, t := DecodeLength(w[..HEADER]), w[HEADER..];
      if n == 0 || n > |t| then []
      else
        match parse(t[..n])
        case None => []
        case Some(j) => [Req(j)] + Stepwise(parse, t[n..])
  }

  lemma {:induction false} AcceptedIsStepwise(parse: seq<Byte> -> Option<Json>, w: seq<Byte>)
    ensures Accepted(parse, w) == Stepwise(parse, w)
    decreases |w|
  {
    if |w| >= HEADER {
      var n := DecodeLength(w[..HEADER]);
      if 0 < n <= |w| - HEADER {
        var t := w[HEADER..];
        assert w[HEADER..HEADER + n] == t[..n];
        assert w[HEADER + n..] == t[n..];
        AcceptedIsStepwise(parse, t[n..]);
        assert Complete(w)[0] == t[..n] && Complete(w)[1..] == Complete(t[n..]);
      }
    }
  }

  ghost predicate AllParse(parse: seq<Byte> -> Option<Json>, ms: seq<Message>) {
    forall i :: 0 <= i < |ms| ==> parse(ms[i]).Some?
  }

  lemma {:induction false} ParsedConcat(parse: seq<Byte> -> Option<Json>, a: seq<Message>, b: seq<Message>)
    requires AllParse(parse, a)
    ensures Parsed(parse, a + b) == Parsed(parse, a) + Parsed(parse, b)
  {
    if a == [] {
      assert a + b == b;
    } else {
      assert (a + b)[0] == a[0] && (a + b)[1..] == a[1..] + b;
      ParsedConcat(parse, a[1..], b);
    }
  }

  lemma ParsedSnoc(parse: seq<Byte> -> Option<Json>, ms: seq<Message>, m: Message)
    requires AllParse(parse, ms) && parse(m).Some?
    ensures AllParse(parse, ms + [m]) && Parsed(parse, ms + [m]) == Parsed(parse, ms) + [Req(parse(m).value)]
  {
    ParsedConcat(parse, ms, [m]);
    assert [m][1..] == [];
  }

  /** No request comes of `part`, whatever follows it. */
  ghost predicate Dead(parse: seq<Byte> -> Option<Json>, part: seq<Byte>, rest: seq<Byte>) {
    Accepted(parse, part) == [] && Accepted(parse, part + rest) == []
  }

  /** What was accepted before a part that nothing comes of is all that is accepted. */
  lemma AcceptedBefore(parse: seq<Byte> -> Option<Json>, ms: seq<Message>, part: seq<Byte>)
    requires AllParse(parse, ms) && Accepted(parse, part) == []
    ensures Accepted(parse, Stream(ms) + part) == Parsed(parse, ms)
  {
    CompleteOfStream(ms, part);
    ParsedConcat(parse, ms, Complete(part));
    assert Parsed(parse, ms) + [] == Parsed(parse, ms);
  }

  /** A message still open: its header and some of its body. */
  function OpenPart(buffer: seq<Byte>, pending: nat): seq<Byte>
    requires |buffer| + pending < Pow256(HEADER)
  {
    Header(|buffer| + pending) + buffer
  }

  lemma OpenIsIncomplete(buffer: seq<Byte>, pending: nat)
    requires pending > 0 && |buffer| + pending < Pow256(HEADER)
    ensures Complete(OpenPart(buffer, pending)) == []
  {
    SplitAt(Header(|buffer| + pending), buffer);
  }

  /** A zero length ends everything. */
  lemma ZeroIsDead(parse: seq<Byte> -> Option<Json>, h: seq<Byte>, rest: seq<Byte>)
    requires |h| == HEADER && DecodeLength(h) == 0
    ensures Dead(parse, h, rest)
  {
    SplitAt(h, rest);
    assert h[..HEADER] == h;
  }

  /** So does a message that does not parse. */
  lemma UnparsedIsDead(parse: seq<Byte> -> Option<Json>, m: Message, rest: seq<Byte>)
    requires parse(m).None?
    ensures Dead(parse, Frame(m), rest)
  {
    CompleteCons(m, rest);
    CompleteCons(m, []);
    assert Frame(m) + [] == Frame(m);
  }

  lemma Nothing(w: seq<Byte>)
    ensures [] + w == w
  {
  }

  /** The state of the reader at the head of its loop. */
  ghost predicate Reading(parse: seq<Byte> -> Option<Json>, queue: seq<QueuedRequest>, ms: seq<Message>,
                          part: seq<Byte>, buffer: seq<Byte>, pending: nat) {
    && AllParse(parse, ms) && queue == Parsed(parse, ms)
    && (pending == 0 ==> part == [])
    && (pending > 0 ==> |buffer| + pending < Pow256(HEADER) && part == OpenPart(buffer, pending))
  }

  /** And before the read of a body: a message is open, or nothing can come any more. */
  ghost predicate BeforeBody(parse: seq<Byte> -> Option<Json>,
                             part: seq<Byte>, buffer: seq<Byte>, pending: nat, rest: seq<Byte>) {
    || (pending > 0 && |buffer| + pending < Pow256(HEADER) && part == OpenPart(buffer, pending))
    || (Dead(parse, part, rest) && (pending == 0 || rest == []))
  }

  lemma HeaderRead(parse: seq<Byte> -> Option<Json>, h: seq<Byte>, rest: seq<Byte>, sizeBytes: seq<Byte>)
    requires |h| <= HEADER && (|h| < HEADER ==> rest == []) && (|h| == HEADER ==> sizeBytes == h)
    ensures BeforeBody(parse, h, [], DecodeLength(sizeBytes), rest)
  {
    if |h| < HEADER {
      assert h + rest == h;
    } else if DecodeLength(h) == 0 {
      ZeroIsDead(parse, h, rest);
    } else {
      HeaderOf(h);
      assert OpenPart([], DecodeLength(h)) == h;
    }
  }

  /** If nothing was read, nothing comes of what is left; not even after a failed read of what was taken. */
  lemma NoBody(parse: seq<Byte> -> Option<Json>, part: seq<Byte>, buffer: seq<Byte>, pending: nat, rest: seq<Byte>)
    requires BeforeBody(parse, part, buffer, pending, rest)
    ensures Accepted(parse, part) == []
    ensures pending == 0 || rest == [] ==> Dead(parse, part, rest)
  {
    if pending > 0 && |buffer| + pending < Pow256(HEADER) && part == OpenPart(buffer, pending) {
      OpenIsIncomplete(buffer, pending);
      if rest == [] {
        assert part + rest == part;
      }
    }
  }

  /** Bytes of the body fill the open message up. */
  lemma BodyRead(buffer: seq<Byte>, pending: nat, chunk: seq<Byte>)
    requires 0 < |chunk| <= pending && |buffer| + pending < Pow256(HEADER)
    ensures var all := buffer + chunk;
      OpenPart(buffer, pending) + chunk == if |chunk| < pending then OpenPart(all, pending - |chunk|) else Frame(all)
  {
    Assoc(Header(|buffer| + pending), buffer, chunk);
  }

  lemma FrameDone(ms: seq<Message>, m: Message, rest: seq<Byte>)
    ensures Stream(ms) + (Frame(m) + rest) == Stream(ms + [m]) + rest && rest == [] + rest
  {
    StreamSnoc(ms, m);
    Assoc(Stream(ms), Frame(m), rest);
  }

  /**
   * Reading into the memory of `reqSize`: a short header overwrites only part of it,
   * and end of file leaves it as it was.
   */
  method ReadSize(p: Pipe, memory: seq<Byte>) returns (reqSizeBytes: seq<Byte>, r: ReadOutcome)
    requires |memory| == HEADER
    modifies p
    ensures |reqSizeBytes| == HEADER
    ensures r.Chunk? ==>
              && old(p.content) == r.bytes + p.content
              && |r.bytes| <= HEADER && (|r.bytes| < HEADER ==> p.content == [])
              && reqSizeBytes == r.bytes + memory[|r.bytes|..]
    ensures r.ReadFailed? ==> reqSizeBytes == memory && p.content == old(p.content)
    ensures r.Chunk? <==> p.again == old(p.again) && p.faults == old(p.faults)
  {
    r := p.ReadHeader();
    reqSizeBytes := if r.Chunk? then r.bytes + memory[|r.bytes|..] else memory;
  }

  /** The read of a header. */
  method StartRequest(p: Pipe, memory: seq<Byte>, ghost parse: seq<Byte> -> Option<Json>)
    returns (reqSizeBytes: seq<Byte>, bytesPending: nat, ghost part: seq<Byte>, failed: bool)
    requires |memory| == HEADER
    modifies p
    ensures |reqSizeBytes| == HEADER && old(p.content) == part + p.content
    ensures !failed <==> p.again == old(p.again) && p.faults == old(p.faults)
    ensures if failed then part == [] && bytesPending == 0 else BeforeBody(parse, part, [], bytesPending, p.content)
    ensures |p.content| <= |old(p.content)|
  {
    var h;
    reqSizeBytes, h := ReadSize(p, memory);
    failed, part, bytesPending := h.ReadFailed?, [], 0;
    if !failed {
      part, bytesPending := h.bytes, DecodeLength(reqSizeBytes);
      HeaderRead(parse, h.bytes, p.content, reqSizeBytes);
    }
    assert [] + old(p.content) == old(p.content);
  }

  /** The read of a body: bytes for the open message, or the end. */
  method ReadChunk(p: Pipe, bytesPending: nat,
                   ghost parse: seq<Byte> -> Option<Json>, ghost part: seq<Byte>, ghost buffer: seq<Byte>)
    returns (r: ReadOutcome)
    requires BeforeBody(parse, part, buffer, bytesPending, p.content)
    modifies p
    ensures r.Chunk? <==> p.again == old(p.again) && p.faults == old(p.faults)
    ensures if r.Chunk? && r.bytes != [] then part + old(p.content) == (part + r.bytes) + p.content
            else p.content == old(p.content)
    ensures r.Chunk? && r.bytes != [] ==>
              var all := buffer + r.bytes;
              && 0 < |r.bytes| <= bytesPending && |buffer| + bytesPending < Pow256(HEADER)
              && |p.content| < |old(p.content)|
              && part + r.bytes ==
                 if |r.bytes| < bytesPending then OpenPart(all, bytesPending - |r.bytes|) else Frame(all)
    ensures !(r.Chunk? && r.bytes != []) ==> Accepted(parse, part) == [] && (r.Chunk? ==> Dead(parse, part, p.content))
  {
    NoBody(parse, part, buffer, bytesPending, p.content);
    r := p.Read(bytesPending);
    if r.Chunk? {
      Assoc(part, r.bytes, p.content);
      if r.bytes != [] {
        BodyRead(buffer, bytesPending, r.bytes);
      } else {
        assert [] + p.content == p.content;
      }
    }
  }

  /** Where the loop ends: what was queued, and that nothing comes of the rest. */
  lemma Finished(parse: seq<Byte> -> Option<Json>, ms: seq<Message>, part: seq<Byte>, rest: seq<Byte>)
    requires AllParse(parse, ms) && Accepted(parse, part) == []
    ensures (Stream(ms) + part) + rest == Stream(ms) + (part + rest)
    ensures Accepted(parse, Stream(ms) + part) == Parsed(parse, ms)
    ensures Dead(parse, part, rest) ==> Accepted(parse, Stream(ms) + (part + rest)) == Parsed(parse, ms)
  {
    Assoc(Stream(ms), part, rest);
    AcceptedBefore(parse, ms, part);
    if Dead(parse, part, rest) {
      AcceptedBefore(parse, ms, part + rest);
    }
  }

  /** The message has come in whole. */
  lemma MessageDone(parse: seq<Byte> -> Option<Json>, ms: seq<Message>, body: seq<Byte>, rest: seq<Byte>)
    returns (more: seq<Message>)
    requires AllParse(parse, ms) && 0 < |body| < Pow256(HEADER)
    ensures parse(body).Some? ==>
              && AllParse(parse, more)
              && Parsed(parse, more) == Parsed(parse, ms) + [Req(parse(body).value)]
              && Stream(ms) + (Frame(body) + rest) == Stream(more) + rest && rest == [] + rest
    ensures parse(body).None? ==> Dead(parse, Frame(body), rest)
  {
    var m: Message := body;
    more := ms + [m];
    if parse(body).Some? {
      ParsedSnoc(parse, ms, body);
      FrameDone(ms, body, rest);
    } else {
      UnparsedIsDead(parse, body, rest);
    }
  }

  lemma NothingYet(parse: seq<Byte> -> Option<Json>)
    ensures Accepted(parse, []) == []
  {
  }

  /** The loop of the request reader, up to the STOP. */
  method ReadRequests(p: Pipe, parse: seq<Byte> -> Option<Json>)
    returns (requestQueue: seq<QueuedRequest>, failed: bool, ghost ms: seq<Message>, ghost part: seq<Byte>)
    modifies p
    ensures old(p.content) == Stream(ms) + (part + p.content)
    ensures failed <==> p.again != old(p.again) || p.faults != old(p.faults)
    ensures AllParse(parse, ms) && requestQueue == Parsed(parse, ms) && Accepted(parse, part) == []
    ensures !failed ==> Dead(parse, part, p.content)
  {
    requestQueue, failed := [], false;
    var bytesPending: nat := 0;
    var reqSizeBytes: seq<Byte> := seq(HEADER, _ => 0);
    var buffer: seq<Byte> := [];
    ms, part := [], [];
    // the bytes not queued yet, taken or not
    ghost var todo := p.content;
    assert Stream([]) + todo == todo && [] + todo == todo;
    while true
      invariant |reqSizeBytes| == HEADER
      invariant !failed && p.again == old(p.again) && p.faults == old(p.faults)
      invariant Reading(parse, requestQueue, ms, part, buffer, bytesPending)
      invariant old(p.content) == Stream(ms) + todo && todo == part + p.content
      decreases |p.content|
    {
      if bytesPending == 0 {
        Nothing(p.content);
        reqSizeBytes, bytesPending, part, failed := StartRequest(p, reqSizeBytes, parse);
        buffer := [];
        if failed {
          NothingYet(parse);
          return;
        }
      }
      var r := ReadChunk(p, bytesPending, parse, part, buffer);
      if r.ReadFailed? || r.bytes == [] {
        // an error, end of file, or a message of length zero
        failed := r.ReadFailed?;
        return;
      }
      bytesPending := bytesPending - |r.bytes|;
      buffer, part := buffer + r.bytes, part + r.bytes;
      if bytesPending == 0 {
        ghost var more := MessageDone(parse, ms, buffer, p.content);
        match parse(buffer)
        case None => return;
        case Some(requestObj) =>
          requestQueue := requestQueue + [Req(requestObj)];
          ms, part, todo := more, [], p.content;
      }
    }
  }

  /**
   * The request reader.  `consumed` is what it took from the pipe.  It has queued, in
   * order, what these bytes decode to, then one STOP; and unless a read failed that is
   * all that the whole stream decodes to.
   */
  method RequestReader(p: Pipe, parse: seq<Byte> -> Option<Json>)
    returns (requestQueue: seq<QueuedRequest>, ghost consumed: seq<Byte>, failed: bool)
    modifies p
    ensures old(p.content) == consumed + p.content
    ensures failed <==> p.again != old(p.again) || p.faults != old(p.faults)
    ensures requestQueue == Accepted(parse, consumed) + [StopRequests]
    ensures !failed ==> requestQueue == Accepted(parse, old(p.content)) + [StopRequests]
  {
    ghost var ms, part;
    requestQueue, failed, ms, part := ReadRequests(p, parse);
    Finished(parse, ms, part, p.content);
    consumed := Stream(ms) + part;
    requestQueue := requestQueue + [StopRequests];
  }

  /**
   * A stream of frames cut at any byte: the requests queued are those of the whole
   * frames before the cut, up to the first that does not parse.
   */
  lemma Truncation(parse: seq<Byte> -> Option<Json>, ms: seq<Message>, cut: nat)
    requires cut <= |Stream(ms)|
    ensures exists k: nat :: WholeFrames(ms, cut, k) && Accepted(parse, Stream(ms)[..cut]) == Parsed(parse, ms[..k])
  {
    var w := Stream(ms)[..cut];
    assert w + Stream(ms)[cut..] == Stream(ms);
    CutStream(ms, w, Stream(ms)[cut..]);
    var k := |Complete(w)|;
    assert Complete(w) == ms[..k];
    CutLength(ms, w, Stream(ms)[cut..]);
    assert WholeFrames(ms, cut, k);
  }

  /** The first k messages are those whose frames end at or before the cut. */
  ghost predicate WholeFrames(ms: seq<Message>, cut: nat, k: nat) {
    && k <= |ms|
    && |Stream(ms[..k])| <= cut
    && (k < |ms| ==> cut < |Stream(ms[..k + 1])|)
  }

  lemma {:induction false} CutLength(ms: seq<Message>, w: seq<Byte>, rest: seq<Byte>)
    requires w + rest == Stream(ms)
    ensures Complete(w) <= ms
    ensures WholeFrames(ms, |w|, |Complete(w)|)
    decreases |ms|, 1
  {
    CutStream(ms, w, rest);
    if ms != [] {
      var f := Frame(ms[0]);
      if |w| < |f| {
        CutFirst(ms, w, rest);
        assert ms[..1] == [ms[0]] && [ms[0]][1..] == [];
      } else {
        CutRest(ms, w, rest);
      }
    }
  }

  lemma WholeFramesCons(ms: seq<Message>, cut: nat, k: nat)
    requires ms != [] && WholeFrames(ms[1..], cut, k)
    ensures WholeFrames(ms, |Frame(ms[0])| + cut, k + 1)
  {
    assert ms[..k + 1][1..] == ms[1..][..k] && ms[..k + 1][0] == ms[0];
    if k + 1 < |ms| {
      assert ms[..k + 2][1..] == ms[1..][..k + 1] && ms[..k + 2][0] == ms[0];
    }
  }

  lemma {:induction false} CutRest(ms: seq<Message>, w: seq<Byte>, rest: seq<Byte>)
    requires ms != [] && w + rest == Stream(ms) && |w| >= |Frame(ms[0])|
    ensures WholeFrames(ms, |w|, |Complete(w)|)
    decreases |ms|, 0
  {
    var v := w[|Frame(ms[0])|..];
    CutLater(ms, w, rest);
    CutLength(ms[1..], v, rest);
    WholeFramesCons(ms, |v|, |Complete(v)|);
  }

  // ----------------------------------------------------------- response writer

  /** The bodies of the responses queued before STOP. */
  function Bodies(gen: Response -> Message, q: seq<QueuedResponse>): seq<Message> {
    if q == [] || q[0].StopResponses? then [] else [gen(q[0].resp)] + Bodies(gen, q[1..])
  }

  /** At a message boundary what is due starts with the next frame, or is over. */
  lemma DueNext(gen: Response -> Message, q: seq<QueuedResponse>, due: seq<Byte>, left: seq<Byte>)
    requires q != [] && left == [] && due == left + Stream(Bodies(gen, q))
    ensures q[0].StopResponses? ==> due == []
    ensures q[0].Answer? ==>
            var m := gen(q[0].resp);
            && |due| >= HEADER && due == Header(|m|) + due[HEADER..]
            && due[HEADER..] == m + Stream(Bodies(gen, q[1..]))
  {
    assert due == Stream(Bodies(gen, q));
    if q[0].Answer? {
      var m, ms := gen(q[0].resp), Bodies(gen, q[1..]);
      assert Bodies(gen, q) == [m] + ms;
      StreamCons(m, ms);
      SplitAt(Header(|m|), m + Stream(ms));
    }
  }

  method WriteHeader(p: Pipe, n: nat, ghost due: seq<Byte>) returns (w: WriteResult, ghost left: seq<Byte>)
    requires n < Pow256(HEADER) && |due| >= HEADER && due == Header(n) + due[HEADER..]
    modifies p
    ensures p.history + left == old(p.history) + due && p.again == old(p.again)
    ensures w.Wrote? ==> left == due[HEADER..]
    ensures p.faults == old(p.faults) + if w.WriteFailed? then 1 else 0
    ensures w.WriteFailed? ==> p.lastErrno == w.errno
  {
    left := due;
    w := p.WriteWhole(Header(n));
    if w.Wrote? {
      left := due[HEADER..];
      Assoc(old(p.history), Header(n), left);
    }
  }

  method WriteBody(p: Pipe, data: seq<Byte>, ghost due: seq<Byte>, ghost tail: seq<Byte>)
    returns (w: WriteResult, ghost left: seq<Byte>)
    requires data != [] && due == data + tail
    modifies p
    ensures p.history + left == old(p.history) + due
    ensures w.Wrote? ==> 0 < w.n <= |data| && left == data[w.n..] + tail
    ensures w.WriteFailed? ==> left == due
    ensures p.again <= old(p.again) && (w.WriteFailed? && w.errno == 11 ==> p.again < old(p.again))
    ensures p.faults == old(p.faults) + if w.WriteFailed? && w.errno != 11 then 1 else 0
    ensures w.WriteFailed? ==> p.lastErrno == w.errno
  {
    left := due;
    w := p.Write(data);
    if w.Wrote? {
      left := data[w.n..] + tail;
      assert data == data[..w.n] + data[w.n..];
      Assoc(data[..w.n], data[w.n..], tail);
      Assoc(old(p.history), data[..w.n], left);
    }
  }

  /** What was written in between is the messages, each behind its length in eight bytes. */
  ghost predicate Framed(before: seq<Byte>, after: seq<Byte>, ms: seq<seq<Byte>>) {
    before <= after && IsStream(after[|before|..], ms)
  }

  lemma Written(before: seq<Byte>, after: seq<Byte>, ms: seq<Message>)
    requires after == before + Stream(ms)
    ensures Framed(before, after, ms)
  {
    SplitAt(before, Stream(ms));
    StreamLayout(ms);
  }

  /**
   * The response writer.  With no write failure the pipe has received exactly the
   * frames of the responses before STOP, in order: of each its length in eight bytes,
   * the lowest first, and its text.  With one, it has received a prefix of them.
   */
  method ResponseWriter(p: Pipe, responseQueue: seq<QueuedResponse>, gen: Response -> Message)
    returns (failure: Option<int>)
    requires StopResponses in responseQueue
    modifies p
    ensures failure.None? ==> p.history == old(p.history) + Stream(Bodies(gen, responseQueue))
    ensures failure.Some? ==> p.history <= old(p.history) + Stream(Bodies(gen, responseQueue))
    ensures failure.None? ==> Framed(old(p.history), p.history, Bodies(gen, responseQueue))
    ensures failure.None? <==> p.faults == old(p.faults)
    ensures failure.Some? ==> failure.value == p.lastErrno
  {
    var bytesWritten: nat := 0;
    var buffer: seq<Byte> := [];
    var queue := responseQueue;
    failure := None;
    // what is still to be written
    ghost var due := Stream(Bodies(gen, responseQueue));
    ghost var all := p.history + due;
    while true
      invariant bytesWritten <= |buffer|
      invariant StopResponses in queue && failure.None? && p.faults == old(p.faults)
      invariant p.history + due == all
      invariant due == buffer[bytesWritten..] + Stream(Bodies(gen, queue))
      decreases |queue|, |buffer| - bytesWritten, p.again
    {
      if bytesWritten == |buffer| {
        var item := queue[0];
        DueNext(gen, queue, due, buffer[bytesWritten..]);
        queue := queue[1..];
        if item.StopResponses? {
          assert p.history + [] == p.history;
          break;
        }
        buffer := gen(item.resp);
        var w;
        w, due := WriteHeader(p, |buffer|, due);
        if w.WriteFailed? {
          failure := Some(w.errno);
          break;
        }
        bytesWritten := 0;
      }
      var r;
      r, due := WriteBody(p, buffer[bytesWritten..], due, Stream(Bodies(gen, queue)));
      match r
      case WriteFailed(errno) =>
        if errno != EAGAIN {
          failure := Some(errno);
          break;
        }
      case Wrote(n) =>
        bytesWritten := bytesWritten + n;
    }
    if failure.None? {
      Written(old(p.history), p.history, Bodies(gen, responseQueue));
    }
  }

  // ------------------------------------------------------------- client, sending

  datatype SendResult = Sent | MoreToSend | SendRaised

  class DataSender {
    const pipe: Pipe
    var dataPending: seq<Byte>

    constructor (pipe: Pipe, data: seq<Byte>)
      ensures this.pipe == pipe && dataPending == data
    {
      this.pipe := pipe;
      dataPending := data;
    }

    /** One POLLOUT event: nothing left is reported as done, otherwise some bytes go out. */
    method Process() returns (r: SendResult)
      modifies this, pipe
      ensures pipe.history + dataPending == old(pipe.history) + old(dataPending)
      ensures r.Sent? <==> old(dataPending) == []
      ensures r.MoreToSend? ==> |dataPending| < |old(dataPending)|
      ensures !r.MoreToSend? ==> pipe.history == old(pipe.history)
      ensures r.SendRaised? <==> pipe.faults > old(pipe.faults) || pipe.again < old(pipe.again)
    {
      if dataPending == [] {
        return Sent;
      }
      var w := pipe.Write(dataPending);
      match w
      case WriteFailed(_) => r := SendRaised;
      case Wrote(n) =>
        assert dataPending == dataPending[..n] + dataPending[n..];
        dataPending := dataPending[n..];
        r := MoreToSend;
    }
  }

  // ----------------------------------------------------------- client, receiving

  datatype ReadResult = Ready | NotReady | ReadRaised

  class ResponseReader {
    const pipe: Pipe
    var responses: seq<Json>
    var dataRemaining: nat
    var dataBuffer: seq<Byte>
    ghost var consumed: seq<Byte>
    ghost var received: seq<Message>

    /** The bytes taken so far are the frames received and the part of one still open. */
    ghost predicate Valid()
      reads this
    {
      && dataRemaining + |dataBuffer| < Pow256(HEADER)
      && (dataRemaining == 0 ==> dataBuffer == [])
      && consumed == Taken(received, dataRemaining, dataBuffer)
    }

    constructor (pipe: Pipe)
      ensures Valid() && this.pipe == pipe && responses == [] && received == [] && consumed == []
    {
      assert Taken([], 0, []) == [];
      this.pipe := pipe;
      responses, dataRemaining, dataBuffer := [], 0, [];
      consumed, received := [], [];
    }

    /** What was received is exactly what the bytes taken decode to. */
    lemma ReceivedIsComplete()
      requires Valid()
      ensures Complete(consumed) == received
    {
      var part := Partial(Reader(dataRemaining, dataBuffer, received));
      CompleteOfStream(received, part);
      if dataRemaining > 0 {
        assert part[..HEADER] == Header(dataRemaining + |dataBuffer|);
      }
      assert Complete(part) == [];
    }

    /** Reads the length of the next message; here even a failure for the moment is one. */
    method StartMessage() returns (ok: bool)
      requires Valid() && dataRemaining == 0
      modifies this, pipe
      ensures consumed + pipe.content == old(consumed) + old(pipe.content)
      ensures received == old(received) && responses == old(responses) && dataBuffer == []
      ensures pipe.again <= old(pipe.again) && pipe.faults >= old(pipe.faults)
      ensures ok <==>
              && pipe.again == old(pipe.again) && pipe.faults == old(pipe.faults)
              && |old(pipe.content)| >= HEADER && DecodeLength(old(pipe.content)[..HEADER]) > 0
      ensures ok ==> Valid() && dataRemaining > 0
    {
      var r := pipe.ReadHeader();
      if r.ReadFailed? {
        return false;
      }
      var h := r.bytes;
      SplitAt(h, pipe.content);
      Assoc(consumed, h, pipe.content);
      consumed := consumed + h;
      if |h| < HEADER {
        return false;
      }
      dataRemaining := DecodeLength(h);
      if dataRemaining > 0 {
        TakeHeader(received, h);
      }
      return dataRemaining > 0;
    }

    /**
     * One readable event.  Bytes only move from the pipe to the reader; a message is
     * handed on exactly when its last byte arrives.  The call raises on a header that
     * cannot be read, is cut short or of value zero, on a body read that fails for
     * good, and on a complete body that does not parse.
     */
    method Process(parse: seq<Byte> -> Option<Json>) returns (r: ReadResult)
      requires Valid()
      modifies this, pipe
      ensures consumed + pipe.content == old(consumed) + old(pipe.content)
      ensures r.Ready? ==> Valid() && |received| == |old(received)| + 1 && old(received) <= received
      ensures r.Ready? ==> parse(received[|received| - 1]).Some?
                           && responses == old(responses) + [parse(received[|received| - 1]).value]
      ensures !r.Ready? ==> received == old(received) && responses == old(responses)
      ensures r.NotReady? ==> Valid() && dataRemaining > 0
      ensures !r.ReadRaised? ==> pipe.faults == old(pipe.faults)
      ensures r.ReadRaised? ==>
              || pipe.faults > old(pipe.faults)
              || (old(dataRemaining) == 0 &&
                  (pipe.again < old(pipe.again)
                   || !(|old(pipe.content)| >= HEADER && DecodeLength(old(pipe.content)[..HEADER]) > 0)))
              || (dataRemaining == 0 && dataBuffer != [] && parse(dataBuffer).None?)
    {
      if dataRemaining == 0 {
        var ok := StartMessage();
        if !ok {
          return ReadRaised;
        }
      }
      var ok := TakeBody();
      if !ok {
        return ReadRaised;
      }
      if dataRemaining == 0 {
        match parse(dataBuffer)
        case None => return ReadRaised;
        case Some(resObj) =>
          responses := responses + [resObj];
          received := received + [dataBuffer];
          dataBuffer := [];
          return Ready;
      }
      return NotReady;
    }

    /** Reads what there is of the rest of the message, trying again while it only fails for the moment. */
    method TakeBody() returns (ok: bool)
      requires Valid() && dataRemaining > 0
      modifies this, pipe
      ensures consumed + pipe.content == old(consumed) + old(pipe.content)
      ensures received == old(received) && responses == old(responses)
      ensures pipe.again <= old(pipe.again) && pipe.faults == old(pipe.faults) + if ok then 0 else 1
      ensures !ok ==> pipe.lastErrno != 4 && pipe.lastErrno != 11
      ensures !ok || dataRemaining > 0 ==> Valid()
      ensures !ok ==> dataRemaining == old(dataRemaining) && dataBuffer == old(dataBuffer)
      ensures ok && dataRemaining == 0 ==>
              0 < |dataBuffer| < Pow256(HEADER) && consumed == Taken(received + [dataBuffer], 0, [])
    {
      var buff := [];
      while true
        invariant consumed == old(consumed) && received == old(received) && responses == old(responses)
        invariant dataRemaining == old(dataRemaining) && dataBuffer == old(dataBuffer)
        invariant pipe.content == old(pipe.content) && pipe.faults == old(pipe.faults) && pipe.again <= old(pipe.again)
        decreases pipe.again
      {
        var r := pipe.Read(dataRemaining);
        if r.Chunk? {
          buff := r.bytes;
          break;
        }
        if !Transient(r.errno) {
          return false;
        }
      }
      Fill(buff);
      ok := true;
    }

    /** Bytes just read from the pipe go to the open message. */
    method Fill(buff: seq<Byte>)
      requires Valid() && |buff| <= dataRemaining && dataRemaining > 0
      modifies this
      ensures consumed == old(consumed) + buff
      ensures received == old(received) && responses == old(responses)
      ensures dataRemaining > 0 ==> Valid()
      ensures dataRemaining == 0 ==>
              0 < |dataBuffer| < Pow256(HEADER) && consumed == Taken(received + [dataBuffer], 0, [])
    {
      if |buff| == dataRemaining {
        TakeLast(received, dataRemaining, dataBuffer, buff);
      } else {
        TakeMore(received, dataRemaining, dataBuffer, buff);
      }
      consumed := consumed + buff;
      dataRemaining := dataRemaining - |buff|;
      dataBuffer := dataBuffer + buff;
    }
  }

  /** The bytes behind the messages received and the one still open. */
  function Taken(received: seq<Message>, remaining: nat, buffer: seq<Byte>): seq<Byte>
    requires remaining + |buffer| < Pow256(HEADER)
  {
    Stream(received) + Partial(Reader(remaining, buffer, received))
  }

  lemma TakeHeader(received: seq<Message>, h: seq<Byte>)
    requires |h| == HEADER && DecodeLength(h) > 0
    ensures Taken(received, 0, []) + h == Taken(received, DecodeLength(h), [])
  {
    HeaderOf(h);
    assert Partial(Reader(DecodeLength(h), [], received)) == h;
  }

  lemma TakeMore(received: seq<Message>, remaining: nat, buffer: seq<Byte>, chunk: seq<Byte>)
    requires remaining + |buffer| < Pow256(HEADER) && |chunk| < remaining
    ensures Taken(received, remaining, buffer) + chunk == Taken(received, remaining - |chunk|, buffer + chunk)
  {
    Assoc(Stream(received), Partial(Reader(remaining, buffer, received)), chunk);
    Assoc(Header(remaining + |buffer|), buffer, chunk);
  }

  lemma TakeLast(received: seq<Message>, remaining: nat, buffer: seq<Byte>, chunk: seq<Byte>)
    requires remaining + |buffer| < Pow256(HEADER) && 0 < |chunk| == remaining
    ensures Taken(received, remaining, buffer) + chunk == Taken(received + [buffer + chunk], 0, [])
  {
    var m := buffer + chunk;
    Assoc(Stream(received), Partial(Reader(remaining, buffer, received)), chunk);
    Assoc(Header(|m|), buffer, chunk);
    StreamSnoc(received, m);
    assert Taken(received + [m], 0, []) == Stream(received + [m]);
  }

  lemma {:induction false} EncodeDecode(h: seq<Byte>)
    ensures EncodeLength(DecodeLength(h), |h|) == h
  {
    if h != [] {
      EncodeDecode(h[1..]);
      var n := DecodeLength(h);
      assert n % 256 == h[0] && n / 256 == DecodeLength(h[1..]);
      assert h == [h[0]] + h[1..];
    }
  }

  lemma HeaderOf(h: seq<Byte>)
    requires |h| == HEADER
    ensures Header(DecodeLength(h)) == h
  {
    EncodeDecode(h);
  }
}
