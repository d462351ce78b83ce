/** Reassembling the child's log lines from the chunks its stderr arrives in. */
module Logs {
  import opened Framing
  import opened Sequences

  const LF: Byte := 10
  const CR: Byte := 13

  type Text = seq<Byte>

  /** The complete lines handled, and the partial line saved. */
  datatype Log = Log(lines: seq<Text>, partial: Text)

  function Concat(lines: seq<Text>): Text {
    if lines == [] then [] else lines[0] + Concat(lines[1..])
  }

  /** All the bytes a log still has. */
  function Bytes(l: Log): Text {
    Concat(l.lines) + l.partial
  }

  // ----------------------------------------------------------------- splitlines

  /** Length of the first line, its ending included: LF, CR LF or CR alone. */
  function LineLength(d: Text): (n: nat)
    requires d != []
    ensures 0 < n <= |d|
    ensures forall i :: 0 <= i < n - 1 ==> d[i] != LF
    ensures forall i :: 0 <= i < n - 1 && d[i] == CR ==> i == n - 2 && d[n - 1] == LF
    ensures d[n - 1] != LF && n < |d| ==> d[n - 1] == CR && d[n] != LF
  {
    if d[0] == LF then 1
    else if d[0] == CR then if |d| > 1 && d[1] == LF then 2 else 1
    else if |d| == 1 then 1
    else 1 + LineLength(d[1..])
  }

  /** bytes.splitlines(True). */
  function SplitLines(d: Text): seq<Text>
    decreases |d|
  {
    if d == [] then [] else [d[..LineLength(d)]] + SplitLines(d[LineLength(d)..])
  }

  /** The lines up to the first that does not end in LF: that one is saved, the rest dropped. */
  function Handle(d: Text): Log
    decreases |d|
  {
    if d == [] then Log([], [])
    else
      var n := LineLength(d);
      if d[n - 1] != LF then Log([], d[..n])
      else
        var rest := Handle(d[n..]);
        Log([d[..n]] + rest.lines, rest.partial)
  }

  /** The loop over the lines. */
  function HandleLines(lines: seq<Text>): Log
    requires [] !in lines
  {
    if lines == [] then Log([], [])
    else if lines[0][|lines[0]| - 1] != LF then Log([], lines[0])
    else
      var rest := HandleLines(lines[1..]);
      Log([lines[0]] + rest.lines, rest.partial)
  }

  lemma {:induction false} HandlesSplitLines(d: Text)
    ensures [] !in SplitLines(d) && HandleLines(SplitLines(d)) == Handle(d)
    decreases |d|
  {
    if d != [] {
      var n := LineLength(d);
      HandlesSplitLines(d[n..]);
      assert SplitLines(d)[0] == d[..n] && SplitLines(d)[1..] == SplitLines(d[n..]);
    }
  }

  /** `done` are handled so far, and the rest of the loop will handle `rest`. */
  ghost predicate Progress(lines: seq<Text>, done: seq<Text>, rest: seq<Text>)
    requires [] !in lines && [] !in rest
  {
    HandleLines(lines) == Log(done + HandleLines(rest).lines, HandleLines(rest).partial)
  }

  lemma ProgressStep(lines: seq<Text>, done: seq<Text>, rest: seq<Text>)
    requires [] !in lines && [] !in rest && rest != [] && Progress(lines, done, rest)
    ensures var line := rest[0];
      if line[|line| - 1] != LF then HandleLines(lines) == Log(done, line)
      else Progress(lines, done + [line], rest[1..])
  {
    var line := rest[0];
    if line[|line| - 1] == LF {
      Assoc(done, [line], HandleLines(rest[1..]).lines);
    } else {
      assert done + [] == done;
    }
  }

  class LogReader {
    var partialLogs: Text
    var handled: seq<Text>

    constructor ()
      ensures partialLogs == [] && handled == []
    {
      partialLogs, handled := [], [];
    }

    /** _processLogs; `handled` are the lines passed on to the logger. */
    method ProcessLogs(chunk: Text)
      modifies this
      ensures var log := Handle(old(partialLogs) + chunk);
        handled == old(handled) + log.lines && partialLogs == log.partial
    {
      var data := chunk;
      if partialLogs != [] {
        data := partialLogs + data;
        partialLogs := [];
      }
      assert data == old(partialLogs) + chunk;
      HandlesSplitLines(data);
      var lines := SplitLines(data);
      HandleAll(lines);
    }

    /** The loop over the lines: it ends at the first line that is not complete. */
    method HandleAll(lines: seq<Text>)
      requires [] !in lines && partialLogs == []
      modifies this
      ensures handled == old(handled) + HandleLines(lines).lines && partialLogs == HandleLines(lines).partial
    {
      ghost var done, rest: seq<Text> := [], lines;
      assert Progress(lines, done, rest) by { assert [] + HandleLines(lines).lines == HandleLines(lines).lines; }
      for i := 0 to |lines|
        invariant rest == lines[i..] && partialLogs == []
        invariant Progress(lines, done, rest) && handled == old(handled) + done
      {
        var line := lines[i];
        ProgressStep(lines, done, rest);
        if line[|line| - 1] != LF {
          partialLogs := line;
          return;
        }
        Assoc(old(handled), done, [line]);
        handled := handled + [line];
        done, rest := done + [line], rest[1..];
      }
      assert done + [] == done;
    }
  }

  // -------------------------------------------------------------- the reference

  /** Length of the first line in the sense of LF alone; 0 if there is no LF. */
  function LfLength(d: Text): (n: nat)
    ensures n <= |d| && (n > 0 ==> d[n - 1] == 10)
    ensures n == 0 ==> 10 !in d
    ensures forall i :: 0 <= i < n - 1 ==> d[i] != 10
  {
    if d == [] then 0
    else if d[0] == 10 then 1
    else var m := LfLength(d[1..]); if m == 0 then 0 else 1 + m
  }

  /** What a log stream means: its LF-terminated lines, and what follows the last. */
  function LfSplit(d: Text): (l: Log)
    decreases |d|
  {
    var n := LfLength(d);
    if n == 0 then Log([], d)
    else
      var rest := LfSplit(d[n..]);
      Log([d[..n]] + rest.lines, rest.partial)
  }

  /** No carriage return but right before a line feed, or as the very last byte. */
  predicate NoLoneCR(d: Text) {
    forall i :: 0 <= i < |d| - 1 && d[i] == 13 ==> d[i + 1] == 10
  }

  lemma {:induction false} SplitKeeps(d: Text)
    ensures Bytes(LfSplit(d)) == d
    decreases |d|
  {
    var n := LfLength(d);
    if n > 0 {
      SplitKeeps(d[n..]);
      BytesCons(d[..n], LfSplit(d[n..]));
      Cut(d, n);
    } else {
      JustPartial(d);
    }
  }

  lemma Cut(d: Text, n: nat)
    requires n <= |d|
    ensures d == d[..n] + d[n..]
  {
  }

  lemma {:induction false} SplitsAtLf(d: Text)
    ensures EndsInLf(Concat(LfSplit(d).lines)) && 10 !in LfSplit(d).partial
    decreases |d|
  {
    var n := LfLength(d);
    if n > 0 {
      SplitsAtLf(d[n..]);
      BytesCons(d[..n], LfSplit(d[n..]));
      LastOfConcat(d[..n], Concat(LfSplit(d[n..]).lines));
    }
  }

  predicate EndsInLf(d: Text) {
    d != [] ==> d[|d| - 1] == 10
  }

  lemma LastOfConcat(a: Text, b: Text)
    requires EndsInLf(a) && EndsInLf(b)
    ensures EndsInLf(a + b)
  {
  }

  lemma BytesCons(line: Text, l: Log)
    ensures Concat([line] + l.lines) == line + Concat(l.lines)
    ensures Bytes(Log([line] + l.lines, l.partial)) == line + Bytes(l)
  {
    assert ([line] + l.lines)[1..] == l.lines;
  }

  lemma {:induction false} ConcatAppend(a: seq<Text>, b: seq<Text>)
    ensures Concat(a + b) == Concat(a) + Concat(b)
  {
    if a == [] {
      assert a + b == b;
    } else {
      assert (a + b)[1..] == a[1..] + b;
      ConcatAppend(a[1..], b);
    }
  }

  // ------------------------------------------------------------- a single call

  lemma FirstLf(d: Text, n: nat)
    requires 0 < n <= |d| && d[n - 1] == LF && forall i :: 0 <= i < n - 1 ==> d[i] != LF
    ensures LfLength(d) == n
  {
    var m := LfLength(d);
    assert m > 0;
  }

  /** What a call keeps is a prefix of its input, and all of it exactly without a lone CR. */
  lemma {:induction false} KeepsAllIff(d: Text)
    ensures Bytes(Handle(d)) <= d
    ensures Bytes(Handle(d)) == d <==> NoLoneCR(d)
    decreases |d|
  {
    if d != [] {
      var n := LineLength(d);
      if d[n - 1] == LF {
        KeepsAllIff(d[n..]);
        CompleteLine(d);
        LineThenRest(d, n);
        PrefixAfter(d, n, Bytes(Handle(d[n..])));
      } else {
        IncompleteLine(d);
      }
    }
  }

  /** Without a lone CR a call makes of its input what the stream means. */
  lemma {:induction false} HandlesAsSplit(d: Text)
    requires NoLoneCR(d)
    ensures Handle(d) == LfSplit(d)
    decreases |d|
  {
    if d != [] {
      var n := LineLength(d);
      if d[n - 1] == LF {
        LineThenRest(d, n);
        HandlesAsSplit(d[n..]);
        FirstLf(d, n);
      } else {
        IncompleteLine(d);
        NoLf(d);
      }
    }
  }

  lemma IncompleteLine(d: Text)
    requires d != [] && d[LineLength(d) - 1] != LF
    ensures Handle(d) == Log([], d[..LineLength(d)])
    ensures Bytes(Handle(d)) == d[..LineLength(d)]
    ensures NoLoneCR(d) <==> d[..LineLength(d)] == d
    ensures NoLoneCR(d) ==> LF !in d
  {
    var n := LineLength(d);
    JustPartial(d[..n]);
    EndsAtCR(d, n);
  }

  lemma EndsAtCR(d: Text, n: nat)
    requires 0 < n <= |d| && (forall i :: 0 <= i < n ==> d[i] != LF) && (forall i :: 0 <= i < n - 1 ==> d[i] != CR)
    requires n < |d| ==> d[n - 1] == CR && d[n] != LF
    ensures NoLoneCR(d) <==> d[..n] == d
    ensures NoLoneCR(d) ==> LF !in d
  {
    if n == |d| {
      Cut(d, n);
    } else {
      assert |d[..n]| == n;
      assert d[n - 1] == CR && d[n] != LF;
    }
  }

  lemma NoLf(d: Text)
    requires LF !in d
    ensures LfSplit(d) == Log([], d)
  {
    assert LfLength(d) == 0;
  }

  lemma JustPartial(d: Text)
    ensures Bytes(Log([], d)) == d
  {
    assert Concat([]) + d == d;
  }

  lemma CompleteLine(d: Text)
    requires d != [] && d[LineLength(d) - 1] == LF
    ensures Bytes(Handle(d)) == d[..LineLength(d)] + Bytes(Handle(d[LineLength(d)..]))
  {
    BytesCons(d[..LineLength(d)], Handle(d[LineLength(d)..]));
  }

  lemma PrefixAfter(d: Text, n: nat, x: Text)
    requires n <= |d| && x <= d[n..]
    ensures d[..n] + x <= d && (d[..n] + x == d <==> x == d[n..])
  {
    assert d == d[..n] + d[n..];
    SplitAt(d[..n], x);
  }

  lemma LineThenRest(d: Text, n: nat)
    requires 0 < n <= |d| && d[n - 1] == LF
    requires forall i :: 0 <= i < n - 1 && d[i] == CR ==> d[i + 1] == LF
    ensures NoLoneCR(d) <==> NoLoneCR(d[n..])
  {
    var rest := d[n..];
    if NoLoneCR(rest) {
      forall i | 0 <= i < |d| - 1 && d[i] == CR ensures d[i + 1] == LF {
        if i >= n {
          assert rest[i - n] == d[i] && rest[i - n + 1] == d[i + 1];
        }
      }
    }
    if NoLoneCR(d) {
      assert forall i :: 0 <= i < |rest| ==> rest[i] == d[n + i];
    }
  }

  // ------------------------------------------------------------------- all calls

  function Flatten(chunks: seq<Text>): Text {
    if chunks == [] then [] else Flatten(chunks[..|chunks| - 1]) + chunks[|chunks| - 1]
  }

  /** The log after the chunks came in one by one. */
  function FeedFrom(start: Log, chunks: seq<Text>): Log {
    if chunks == [] then start
    else
      var before := FeedFrom(start, chunks[..|chunks| - 1]);
      var log := Handle(before.partial + chunks[|chunks| - 1]);
      Log(before.lines + log.lines, log.partial)
  }

  function Feed(chunks: seq<Text>): Log {
    FeedFrom(Log([], []), chunks)
  }

  /** More of the stream only adds to the split: the partial line is taken up again. */
  lemma {:induction false} SplitResumes(a: Text, b: Text)
    ensures var s, t := LfSplit(a), LfSplit(LfSplit(a).partial + b);
      LfSplit(a + b) == Log(s.lines + t.lines, t.partial)
    decreases |a|
  {
    var n := LfLength(a);
    if n > 0 {
      assert (a + b)[n..] == a[n..] + b && (a + b)[..n] == a[..n];
      SplitResumes(a[n..], b);
      FirstLf(a + b, n);
      var rest := LfSplit(a[n..]);
      Assoc([a[..n]], rest.lines, LfSplit(rest.partial + b).lines);
    }
  }

  lemma FeedBytes(before: Log, chunk: Text)
    ensures var log := Handle(before.partial + chunk);
      && Bytes(Log(before.lines + log.lines, log.partial)) == Concat(before.lines) + Bytes(log)
      && |Bytes(log)| <= |before.partial| + |chunk|
  {
    var log := Handle(before.partial + chunk);
    ConcatAppend(before.lines, log.lines);
    Assoc(Concat(before.lines), Concat(log.lines), log.partial);
    KeepsAllIff(before.partial + chunk);
  }

  lemma {:induction false} NeverMore(chunks: seq<Text>)
    ensures |Bytes(Feed(chunks))| <= |Flatten(chunks)|
  {
    if chunks != [] {
      NeverMore(chunks[..|chunks| - 1]);
      FeedBytes(Feed(chunks[..|chunks| - 1]), chunks[|chunks| - 1]);
    }
  }

  /**
   * However the stream is cut into chunks: if and only if it has no lone CR, no byte
   * of it is lost, and then the lines handled and the partial line saved are those
   * of the stream as a whole.
   */
  lemma {:induction false} Reassembly(chunks: seq<Text>)
    ensures Bytes(Feed(chunks)) == Flatten(chunks) <==> NoLoneCR(Flatten(chunks))
    ensures NoLoneCR(Flatten(chunks)) ==> Feed(chunks) == LfSplit(Flatten(chunks))
  {
    if chunks != [] {
      var init, last := chunks[..|chunks| - 1], chunks[|chunks| - 1];
      var f, before := Flatten(init), Feed(init);
      Reassembly(init);
      FeedBytes(before, last);
      if NoLoneCR(f + last) {
        PartsSafe(f, last);
        HandlesAsSplit(before.partial + last);
        SplitResumes(f, last);
        SplitKeeps(f + last);
      } else if Bytes(Feed(chunks)) == f + last {
        NothingLost(init, last);
      }
    }
  }

  /** A stream without a lone CR, cut anywhere: neither part has one. */
  lemma PartsSafe(a: Text, b: Text)
    requires NoLoneCR(a + b)
    ensures NoLoneCR(a) && NoLoneCR(LfSplit(a).partial + b)
  {
    SplitKeeps(a);
    var w, k := a + b, |Concat(LfSplit(a).lines)|;
    assert forall i :: 0 <= i < |a| ==> a[i] == w[i];
    assert LfSplit(a).partial + b == w[k..];
  }

  lemma NothingLost(init: seq<Text>, last: Text)
    requires Bytes(Feed(init)) == Flatten(init) <==> NoLoneCR(Flatten(init))
    requires NoLoneCR(Flatten(init)) ==> Feed(init) == LfSplit(Flatten(init))
    requires Bytes(Feed(init + [last])) == Flatten(init) + last
    ensures NoLoneCR(Flatten(init) + last)
  {
    var f, before := Flatten(init), Feed(init);
    var d := before.partial + last;
    assert (init + [last])[..|init|] == init;
    FeedBytes(before, last);
    NeverMore(init);
    KeepsAllIff(d);
    FullLength(Concat(before.lines), before.partial, last, Bytes(Handle(d)), f);
    SplitsAtLf(f);
    Joined(Concat(before.lines), before.partial, last);
  }

  /** Nothing missing at the end means nothing was missing before. */
  lemma FullLength(ls: Text, partial: Text, last: Text, kept: Text, f: Text)
    requires |ls + partial| <= |f| && |kept| <= |partial| + |last| && kept <= partial + last
    requires ls + kept == f + last
    ensures kept == partial + last && ls + partial == f
  {
    assert |kept| == |partial + last|;
    Assoc(ls, partial, last);
    assert (ls + partial) + last == f + last;
    SplitAt(ls + partial, last);
    SplitAt(f, last);
  }

  lemma Joined(ls: Text, partial: Text, last: Text)
    requires NoLoneCR(ls + partial) && NoLoneCR(partial + last) && EndsInLf(ls)
    ensures NoLoneCR(ls + partial + last)
  {
    var w := ls + partial + last;
    forall i | 0 <= i < |w| - 1 && w[i] == CR ensures w[i + 1] == LF {
      if i + 1 < |ls + partial| {
        assert (ls + partial)[i] == CR && (ls + partial)[i + 1] == w[i + 1];
      } else {
        assert i >= |ls|;
        assert (partial + last)[i - |ls|] == CR && (partial + last)[i + 1 - |ls|] == w[i + 1];
      }
    }
  }

  /** Once the saved line ends in CR, only a chunk that starts with LF gets past it. */
  lemma StuckBehindCR(partial: Text, chunk: Text)
    requires partial != [] && partial[|partial| - 1] == 13 && 10 !in partial
    requires forall i :: 0 <= i < |partial| - 1 ==> partial[i] != 13
    requires chunk != []
    ensures Handle(partial + chunk) == Log([], partial) <==> chunk[0] != 10
  {
    var d := partial + chunk;
    var n := LineLength(d);
    assert d[|partial| - 1] == 13 && d[|partial|] == chunk[0];
    assert forall i :: 0 <= i < |partial| - 1 ==> d[i] == partial[i];
    assert n >= |partial|;
    assert d[..|partial|] == partial;
    if chunk[0] == 10 {
      assert n == |partial| + 1;
    }
  }

  /** So a log stuck there takes in nothing more, however many such chunks come. */
  lemma {:induction false} StuckForGood(start: Log, chunks: seq<Text>)
    requires var p := start.partial;
      p != [] && p[|p| - 1] == 13 && 10 !in p && forall i :: 0 <= i < |p| - 1 ==> p[i] != 13
    requires forall i :: 0 <= i < |chunks| ==> chunks[i] != [] && chunks[i][0] != 10
    ensures FeedFrom(start, chunks) == start
  {
    if chunks != [] {
      StuckForGood(start, chunks[..|chunks| - 1]);
      StuckBehindCR(start.partial, chunks[|chunks| - 1]);
      assert start.lines + [] == start.lines;
    }
  }

  /** Of the two lines in these bytes the second is lost, and the log is stuck. */
  lemma LoneCRLosesALine()
    ensures Handle([97, 13, 98, 10]) == Log([], [97, 13])
    ensures LfSplit([97, 13, 98, 10]) == Log([[97, 13, 98, 10]], [])
    ensures FeedFrom(Handle([97, 13, 98, 10]), [[99, 10], [100, 10]]) == Log([], [97, 13])
  {
    var d := [97, 13, 98, 10];
    assert LineLength(d) == 2;
    assert d[..2] == [97, 13];
    FirstLf(d, 4);
    assert d[..4] == d && d[4..] == [];
    StuckForGood(Log([], [97, 13]), [[99, 10], [100, 10]]);
  }
}
