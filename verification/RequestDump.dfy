/** The bytes of a request: what the client sends for a command, and what they are read as. */
module RequestDump {
  import opened JsonValues
  import opened Framing
  import opened AsciiText
  import opened JsonText
  import opened Sequences
  import C = ClientLoop
  import CT = ClientTheorems
  import E = EndToEnd
  import S = ServerPipeline

  // -------------------------------------------------------------- one request

  function RequestDict(methodName: Text, args: Value, reqId: int): Value {
    VDict([Entry(Lit("id"), VInt(reqId)), Entry(Lit("methodName"), VStr(methodName)), Entry(Lit("args"), args)])
  }

  function RequestText(methodName: Text, args: Value, reqId: int): Text {
    Dumps(RequestDict(methodName, args, reqId))
  }

  /** The text of a request is ASCII and never empty, so its length is its byte count. */
  lemma RequestIsPlain(methodName: Text, args: Value, reqId: int)
    ensures var t := RequestText(methodName, args, reqId);
      Plain(t) && Encodable(t) && t != [] && |Utf8(t)| == |t|
  {
    var t := RequestText(methodName, args, reqId);
    DumpsPlain(RequestDict(methodName, args, reqId));
    assert Encodable(t);
    CountIff(t);
  }

  /** The body of a request, if its length fits the header. */
  function Body(methodName: Text, args: Value, reqId: int): Option<Message> {
    RequestIsPlain(methodName, args, reqId);
    var b := Utf8(RequestText(methodName, args, reqId));
    if |b| < Pow256(HEADER) then Some(b) else None
  }

  /** The value of a key in an object; of a key given twice, the last. */
  function Field(entries: seq<Entry>, key: Text): Option<Value> {
    if entries == [] then None
    else if entries[|entries| - 1].key == key then Some(entries[|entries| - 1].value)
    else Field(entries[..|entries| - 1], key)
  }

  /** The value is an object that calls this method on these arguments under this id, and nothing more. */
  predicate Calls(v: Value, methodName: Text, args: Value, id: int) {
    && v.VDict? && |v.entries| == 3
    && Field(v.entries, Lit("id")) == Some(VInt(id))
    && Field(v.entries, Lit("methodName")) == Some(VStr(methodName))
    && Field(v.entries, Lit("args")) == Some(args)
  }

  lemma KeysDiffer()
    ensures Lit("id") != Lit("methodName") && Lit("id") != Lit("args") && Lit("methodName") != Lit("args")
    ensures JoinPairs(Lit("id")) == Lit("id") && JoinPairs(Lit("methodName")) == Lit("methodName")
    ensures JoinPairs(Lit("args")) == Lit("args")
  {
    JoinedIff(Lit("id"));
    JoinedIff(Lit("methodName"));
    JoinedIff(Lit("args"));
  }

  lemma ThreeFields(a: Entry, b: Entry, c: Entry)
    requires a.key != b.key && a.key != c.key && b.key != c.key
    ensures Field([a, b, c], a.key) == Some(a.value) && Field([a, b, c], b.key) == Some(b.value)
    ensures Field([a, b, c], c.key) == Some(c.value)
  {
    LastField([], a);
    LastField([a], b);
    LastField([a, b], c);
    assert [a] + [b] == [a, b] && [a, b] + [c] == [a, b, c];
  }

  lemma LastField(es: seq<Entry>, e: Entry)
    ensures forall key :: Field(es + [e], key) == if e.key == key then Some(e.value) else Field(es, key)
    ensures [] + [e] == [e]
  {
    assert (es + [e])[..|es|] == es;
  }

  /** The request as it comes out of its text. */
  lemma JoinedRequest(methodName: Text, args: Value, reqId: int)
    ensures Joined(RequestDict(methodName, args, reqId)) == RequestDict(JoinPairs(methodName), Joined(args), reqId)
  {
    KeysDiffer();
    JoinedThree(Entry(Lit("id"), VInt(reqId)), Entry(Lit("methodName"), VStr(methodName)), Entry(Lit("args"), args));
  }

  lemma JoinedThree(a: Entry, b: Entry, c: Entry)
    ensures Joined(VDict([a, b, c])) == VDict([
      Entry(JoinPairs(a.key), Joined(a.value)),
      Entry(JoinPairs(b.key), Joined(b.value)),
      Entry(JoinPairs(c.key), Joined(c.value))])
  {
  }

  /** An object of just these fields calls the method. */
  lemma DictCalls(methodName: Text, args: Value, reqId: int)
    ensures Calls(RequestDict(methodName, args, reqId), methodName, args, reqId)
  {
    KeysDiffer();
    ThreeFields(Entry(Lit("id"), VInt(reqId)), Entry(Lit("methodName"), VStr(methodName)), Entry(Lit("args"), args));
  }

  /**
   * For every method name, arguments and id the text is that of an object with just this
   * id, this name and these arguments, surrogate pairs joined.
   */
  lemma RequestReads(methodName: Text, args: Value, reqId: int)
    requires JsonFloats(args)
    ensures var v := ReadText(RequestText(methodName, args, reqId));
      v.Some? && Calls(v.value, JoinPairs(methodName), Joined(args), reqId)
  {
    var d := RequestDict(methodName, args, reqId);
    TextReadsIff(d);
    JoinedRequest(methodName, args, reqId);
    DictCalls(JoinPairs(methodName), Joined(args), reqId);
  }

  /**
   * The bytes are the ASCII text of a request, one byte a character, and are read as the
   * call of this method on these arguments under this id.
   */
  ghost predicate IsRequest(body: seq<Byte>, methodName: Text, args: Value, id: int) {
    && body != []
    && (forall k :: 0 <= k < |body| ==> 32 <= body[k] <= 126)
    && (JsonFloats(args) ==>
          ReadBytes(body).Some? && Calls(ReadBytes(body).value, JoinPairs(methodName), Joined(args), id))
  }

  lemma BodyIsRequest(methodName: Text, args: Value, id: int)
    ensures Encodable(RequestText(methodName, args, id))
    ensures IsRequest(Utf8(RequestText(methodName, args, id)), methodName, args, id)
  {
    var t := RequestText(methodName, args, id);
    RequestIsPlain(methodName, args, id);
    PlainBytes(t);
    Utf8RoundTrip(t);
    if JsonFloats(args) {
      RequestReads(methodName, args, id);
    }
  }

  /**
   * _requestToBytes: for any Unicode arguments eight bytes that hold the number of bytes
   * to come, and the request; packing fails past 64 bits.
   */
  method RequestToBytes(methodName: Text, args: Value, reqId: int) returns (res: Option<seq<Byte>>)
    ensures res.None? <==> |RequestText(methodName, args, reqId)| >= 0x1_0000_0000_0000_0000
    ensures res.Some? ==>
              && |res.value| > 8
              && IsFrame(res.value, res.value[8..])
              && IsRequest(res.value[8..], methodName, args, reqId)
    ensures var body := Body(methodName, args, reqId);
      res == if body.Some? then Some(Frame(body.value)) else None
  {
    var reqStr := RequestText(methodName, args, reqId);
    RequestIsPlain(methodName, args, reqId);
    BodyIsRequest(methodName, args, reqId);
    Pow256Values();
    if |reqStr| >= Pow256(HEADER) {
      return None;
    }
    var bytes := Header(|reqStr|);
    SplitAt(bytes, Utf8(reqStr));
    FrameLayout(Utf8(reqStr));
    bytes := bytes + Utf8(reqStr);
    res := Some(bytes);
  }

  // --------------------------------------------------------- what the loop sends

  /** A command as the `json` module is handed it. */
  datatype PyCall = PyCall(methodName: Text, args: Value)

  /** `view` gives each command its Python form, or nothing where dumping it raises. */
  function DumpOf(view: C.Command -> Option<PyCall>): C.Dump {
    (id, cmd) =>
      match view(cmd)
      case None => None
      case Some(call) => Body(call.methodName, call.args, id)
  }

  /** What the loop hands to the sender for a command is the frame of the request under its new id. */
  lemma FetchSendsRequest(view: C.Command -> Option<PyCall>, s: C.State)
    requires C.Enabled(s, C.Fetch) && s.queue != [] && view(s.calls[s.queue[0]]).Some?
    ensures var call, id := view(s.calls[s.queue[0]]).value, s.reqId + 1;
      var t := C.Apply(DumpOf(view), s, C.Fetch);
      if |RequestText(call.methodName, call.args, id)| >= 0x1_0000_0000_0000_0000 then t.pc == C.Cleaning
      else
        && t.sender.Some? && |t.sender.value| > 8
        && IsFrame(t.sender.value, t.sender.value[8..])
        && IsRequest(t.sender.value[8..], call.methodName, call.args, id)
  {
    var call, id := view(s.calls[s.queue[0]]).value, s.reqId + 1;
    CT.FetchTakes(DumpOf(view), s);
    RequestIsPlain(call.methodName, call.args, id);
    BodyIsRequest(call.methodName, call.args, id);
    Pow256Values();
    var body := Body(call.methodName, call.args, id);
    if body.Some? {
      FrameLayout(body.value);
    }
  }

  /** In every run of the client each frame on the request pipe is the call its id was given to. */
  lemma FramesAreRequests(view: C.Command -> Option<PyCall>, ls: seq<C.Label>, i: nat)
    requires C.Run(DumpOf(view), ls).Some? && i < |C.Run(DumpOf(view), ls).value.frames|
    ensures IsRequestOf(view, C.Run(DumpOf(view), ls).value, i)
  {
    FrameDumped(DumpOf(view), ls, i);
    DumpedIsRequest(view, C.Run(DumpOf(view), ls).value, i);
  }

  /** Frame i is the request for the call that was given the i-th id of this run. */
  ghost predicate IsRequestOf(view: C.Command -> Option<PyCall>, s: C.State, i: nat)
    requires i < |s.frames|
  {
    var id := s.firstId + i;
    && 0 <= id - 1 < |s.calls| && view(s.calls[id - 1]).Some?
    && var call := view(s.calls[id - 1]).value;
      IsRequest(s.frames[i], call.methodName, call.args, id)
  }

  lemma FrameDumped(dump: C.Dump, ls: seq<C.Label>, i: nat)
    requires C.Run(dump, ls).Some? && i < |C.Run(dump, ls).value.frames|
    ensures CT.FrameOfCall(dump, C.Run(dump, ls).value, i)
  {
    CT.FramesInOrder(dump, ls);
  }

  lemma DumpedIsRequest(view: C.Command -> Option<PyCall>, s: C.State, i: nat)
    requires i < |s.frames| && CT.FrameOfCall(DumpOf(view), s, i)
    ensures IsRequestOf(view, s, i)
  {
    var id := s.firstId + i;
    var call := view(s.calls[id - 1]).value;
    BodyIsRequest(call.methodName, call.args, id);
  }

  // ------------------------------------------------------- what the server reads

  /** A character of the server's strings; a lone surrogate is none. */
  function CharOf(c: CodePoint): char {
    if High(c) || Low(c) then '?' else c as char
  }

  function StringOf(t: Text): (s: string)
    ensures |s| == |t|
  {
    seq(|t|, i requires 0 <= i < |t| => CharOf(t[i]))
  }

  function ToJson(v: Value): Json
    decreases v, 0
  {
    match v
    case VNull => Null
    case VBool(b) => Bool(b)
    case VInt(n) => Long(n)
    case VFloat(token) => Double(StringOf(token))
    case VStr(s) => Str(StringOf(s))
    case VList(items) => Arr(seq(|items|, i requires 0 <= i < |items| => ToJson(items[i])))
    case VDict(entries) => Obj(ToFields(entries))
  }

  function ToFields(entries: seq<Entry>): map<string, Json>
    decreases entries, 1
  {
    if entries == [] then map[]
    else
      var last := entries[|entries| - 1];
      ToFields(entries[..|entries| - 1])[StringOf(last.key) := ToJson(last.value)]
  }

  /** A request read from its bytes. */
  function ReadRequest(b: seq<Byte>): Option<Json> {
    match ReadBytes(b)
    case None => None
    case Some(v) => Some(ToJson(v))
  }

  lemma StringRoundTrip(s: string)
    ensures StringOf(Lit(s)) == s && JoinPairs(Lit(s)) == Lit(s)
  {
    JoinedIff(Lit(s));
    assert forall i :: 0 <= i < |s| ==> Lit(s)[i] as char == s[i];
  }

  lemma RequestFields(methodName: string, args: Value, id: int)
    ensures ToJson(RequestDict(Lit(methodName), args, id)) ==
            Obj(map["id" := Long(id), "methodName" := Str(methodName), "args" := ToJson(args)])
  {
    StringRoundTrip("id");
    StringRoundTrip("methodName");
    StringRoundTrip("args");
    StringRoundTrip(methodName);
    ThreeToFields(
      Entry(Lit("id"), VInt(id)), Entry(Lit("methodName"), VStr(Lit(methodName))), Entry(Lit("args"), args));
  }

  lemma ThreeToFields(a: Entry, b: Entry, c: Entry)
    ensures ToFields([a, b, c]) == map[
      StringOf(a.key) := ToJson(a.value), StringOf(b.key) := ToJson(b.value), StringOf(c.key) := ToJson(c.value)]
  {
    LastToField([], a);
    LastToField([a], b);
    LastToField([a, b], c);
    assert [a] + [b] == [a, b] && [a, b] + [c] == [a, b, c];
  }

  lemma LastToField(es: seq<Entry>, e: Entry)
    ensures ToFields(es + [e]) == ToFields(es)[StringOf(e.key) := ToJson(e.value)]
    ensures [] + [e] == [e]
  {
    assert (es + [e])[..|es|] == es;
  }

  lemma RequestCarried(methodName: string, args: Value, id: int)
    requires JsonFloats(args) && Body(Lit(methodName), args, id).Some?
    ensures ReadRequest(Body(Lit(methodName), args, id).value) ==
            Some(Obj(map["id" := Long(id), "methodName" := Str(methodName), "args" := ToJson(Joined(args))]))
  {
    var t := RequestText(Lit(methodName), args, id);
    RequestIsPlain(Lit(methodName), args, id);
    Utf8RoundTrip(t);
    TextReadsIff(RequestDict(Lit(methodName), args, id));
    JoinedRequest(Lit(methodName), args, id);
    StringRoundTrip(methodName);
    RequestFields(methodName, Joined(args), id);
  }

  /** The Python form of a command: its own name, and arguments that come out of the text as `carryArgs` says. */
  ghost predicate Views(view: C.Command -> Option<PyCall>, carryArgs: Json -> Json, cmd: C.Command) {
    view(cmd).Some? ==>
      var call := view(cmd).value;
      && call.methodName == Lit(cmd.methodName) && JsonFloats(call.args)
      && carryArgs(cmd.args) == ToJson(Joined(call.args))
  }

  /** So with these texts the server reads every request as the command that was called. */
  lemma RequestsAreFaithful(view: C.Command -> Option<PyCall>, codec: E.Codec, id: nat, cmd: C.Command)
    requires codec.dump == DumpOf(view) && codec.parse == ReadRequest && Views(view, codec.carryArgs, cmd)
    ensures E.RequestFaithful(codec, id, cmd)
  {
    if codec.dump(id, cmd).Some? {
      RequestCarried(cmd.methodName, view(cmd).value.args, id);
    }
  }

  /**
   * End-to-end correlation with the texts of the requests themselves in place of an
   * assumption about them: in every run of the joined system what a caller gets from the
   * server is the outcome of its own command.
   */
  lemma TextCorrelation(view: C.Command -> Option<PyCall>, cfg: S.Config, codec: E.Codec, ls: seq<E.Label>, i: nat)
    requires S.ValidConfig(cfg) && E.Run(cfg, codec, ls).Some?
    requires codec.dump == DumpOf(view) && codec.parse == ReadRequest
    requires forall cmd :: cmd in E.Run(cfg, codec, ls).value.client.calls ==> Views(view, codec.carryArgs, cmd)
    requires forall resp :: E.ResponseFaithful(codec, resp)
    requires i < |E.Run(cfg, codec, ls).value.client.completions|
    ensures var c := E.Run(cfg, codec, ls).value.client;
      var x := c.completions[i];
      x.source.FromServer? ==>
        x.caller < |c.calls| && E.MaySee(cfg, codec, c.calls[x.caller], C.Delivered(x.source))
  {
    var calls := E.Run(cfg, codec, ls).value.client.calls;
    forall id, k | 0 <= k < |calls| ensures E.RequestFaithful(codec, id, calls[k]) {
      RequestsAreFaithful(view, codec, id, calls[k]);
    }
    E.CallerSeesOwnOutcome(cfg, codec, ls, i);
  }
}
