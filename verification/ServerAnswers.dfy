/** What the server's responses say, read off the fields of the request. */
module ServerAnswers {
  import opened JsonValues
  import opened ServerPipeline
  import opened ServerInvariant
  import opened ServerTheorems

  lemma AnswerIsGood(cfg: Config, ls: seq<Label>, i: nat)
    requires ValidConfig(cfg) && Run(cfg, ls).Some? && i < |Responses(Run(cfg, ls).value)|
    requires Responses(Run(cfg, ls).value)[i].Answer?
    ensures GoodAnswer(cfg, Run(cfg, ls).value, Responses(Run(cfg, ls).value)[i])
  {
    RunInv(cfg, ls);
  }

  /** The answer to a rejected request: EAGAIN, an empty result, and the id it has, or -1. */
  lemma RejectedGetsEagain(cfg: Config, ls: seq<Label>, i: nat)
    requires ValidConfig(cfg) && Run(cfg, ls).Some? && i < |Responses(Run(cfg, ls).value)|
    requires var a := Responses(Run(cfg, ls).value)[i]; a.Answer? && a.ticket in Run(cfg, ls).value.rejected
    ensures var s := Run(cfg, ls).value;
      var a := Responses(s)[i];
      && a.ticket < |s.popped| && a.resp.errcode == 11 && a.resp.errstr == "Resource temporarily unavailable"
      && a.resp.result == Obj(map[])
      && var req := s.popped[a.ticket];
        && (req.Obj? && "id" in req.fields && req.fields["id"].Long? ==> a.resp.id == req.fields["id"].l)
        && (!req.Obj? || "id" !in req.fields ==> a.resp.id == -1)
  {
    AnswerIsGood(cfg, ls, i);
  }

  /** What a response says of an outcome: the error, or success, and the result, or an empty one. */
  predicate Says(resp: Response, o: Outcome) {
    && (match o.err
        case None => resp.errcode == 0 && resp.errstr == "SUCCESS"
        case Some(e) => resp.errcode == e.code && resp.errstr == e.message)
    && (match o.result
        case None => resp.result == Obj(map[])
        case Some(j) => resp.result == j)
  }

  /** The answer to an admitted request: an outcome of the method it names on its own arguments. */
  lemma AdmittedGetsOutcome(cfg: Config, ls: seq<Label>, i: nat)
    requires ValidConfig(cfg) && Run(cfg, ls).Some? && i < |Responses(Run(cfg, ls).value)|
    requires var a := Responses(Run(cfg, ls).value)[i]; a.Answer? && a.ticket !in Run(cfg, ls).value.rejected
    ensures var s := Run(cfg, ls).value;
      var a := Responses(s)[i];
      && a.ticket < |s.popped| && NamesCall(s.popped[a.ticket])
      && var f := s.popped[a.ticket].fields;
        var m, args := f["methodName"].s, if "args" in f then Some(f["args"]) else None;
        && (f["id"].Long? ==> a.resp.id == f["id"].l)
        && (if cfg.known(m) then exists o :: cfg.computes(m, args, o) && Says(a.resp, o)
            else a.resp.errcode == 22 && a.resp.errstr == "No such method '" + m + "'" && a.resp.result == Obj(map[]))
  {
    AnswerIsGood(cfg, ls, i);
    var s := Run(cfg, ls).value;
    var a := Responses(s)[i];
    var info := Extract(cfg, s.popped[a.ticket]);
    var o :| MayReport(cfg, info.methodName, info.args, o) && a.resp == BuildResponse(info.id, o.err, o.result);
    assert Says(a.resp, o);
  }

  /**
   * Over a whole run: a request whose decrement found all T + Q places taken gets
   * exactly one response, and that is EAGAIN; any other request was admitted.
   */
  lemma FullGetsEagain(cfg: Config, ls: seq<Label>, n: nat)
    requires ValidConfig(cfg) && Run(cfg, ls).Some? && WriterStopped(Run(cfg, ls).value)
    requires n < |Run(cfg, ls).value.popped|
    ensures var s := Run(cfg, ls).value;
      if exists k: nat :: FullAt(cfg, ls, k, n) then
        AnswersTo(s.taken, n) == 1
        && forall i :: 0 <= i < |s.taken| && s.taken[i].Answer? && s.taken[i].ticket == n ==>
             s.taken[i].resp.errcode == 11
      else
        n in s.admitted && n !in s.rejected
  {
    var s := Run(cfg, ls).value;
    RejectedIffFull(cfg, ls, n);
    WholeRunAccounting(cfg, ls);
    AllDecided(cfg, ls, n);
    forall i | 0 <= i < |s.taken| && s.taken[i].Answer? && s.taken[i].ticket == n && n in s.rejected
      ensures s.taken[i].resp.errcode == 11
    {
      assert Responses(s)[i] == s.taken[i];
      RejectedGetsEagain(cfg, ls, i);
    }
  }

  lemma AllDecided(cfg: Config, ls: seq<Label>, n: nat)
    requires ValidConfig(cfg) && Run(cfg, ls).Some? && WriterStopped(Run(cfg, ls).value)
    requires n < |Run(cfg, ls).value.popped|
    ensures n in Run(cfg, ls).value.admitted || n in Run(cfg, ls).value.rejected
  {
    RunInv(cfg, ls);
    var s := Run(cfg, ls).value;
    assert Responses(s)[|s.taken| - 1].StopResponses?;
  }
}
