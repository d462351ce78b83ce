/** Files travel as base64 inside JSON: the chunked loops of `readfile` and `writefile`. */
module FileTransfer {
  import opened JsonValues
  import opened Framing
  import opened Sequences

  const INT_MAX := 0x7FFF_FFFF

  // ------------------------------------------------------------------- base64

  /** The alphabet of section 4 of RFC 4648. */
  function Digit(v: nat): (c: char)
    requires v < 64
  {
    if v < 26 then 'A' + v as char
    else if v < 52 then 'a' + (v - 26) as char
    else if v < 62 then '0' + (v - 52) as char
    else if v == 62 then '+' else '/'
  }

  /** What a character stands for; padding counts as zero. */
  function Rank(c: char): (r: Option<nat>)
    ensures r.Some? ==> r.value < 64
  {
    if 'A' <= c <= 'Z' then Some((c - 'A') as int)
    else if 'a' <= c <= 'z' then Some((c - 'a') as int + 26)
    else if '0' <= c <= '9' then Some((c - '0') as int + 52)
    else if c == '+' then Some(62)
    else if c == '/' then Some(63)
    else if c == '=' then Some(0)
    else None
  }

  /** The 64 characters of Table 1 in section 4 of RFC 4648. */
  const ALPHABET := "ABCDEFGHIJKLMNOP" + "QRSTUVWXYZabcdef" + "ghijklmnopqrstuv" + "wxyz0123456789+/"

  lemma AlphabetOrder(v: nat)
    requires v < 64
    ensures Digit(v) == ALPHABET[v]
  {
    assert ALPHABET[v] == if v < 16 then "ABCDEFGHIJKLMNOP"[v] else if v < 32 then "QRSTUVWXYZabcdef"[v - 16]
                          else if v < 48 then "ghijklmnopqrstuv"[v - 32] else "wxyz0123456789+/"[v - 48];
  }

  lemma RankOfDigit(v: nat)
    requires v < 64
    ensures Rank(Digit(v)) == Some(v) && Digit(v) != '='
  {
  }

  /** A character counts exactly for its place in the alphabet, padding for zero; no other counts for anything. */
  lemma RankIff(c: char, v: nat)
    requires v < 64
    ensures Rank(c) == Some(v) <==> c == ALPHABET[v] || (c == '=' && v == 0)
  {
    AlphabetOrder(v);
  }

  function Quad(a: Byte, b: Byte, c: Byte): (q: string)
    ensures |q| == 4
  {
    [Digit(a / 4), Digit(a % 4 * 16 + b / 16), Digit(b % 16 * 4 + c / 64), Digit(c % 64)]
  }

  function Encode(d: seq<Byte>): string {
    if d == [] then ""
    else if |d| == 1 then Quad(d[0], 0, 0)[..2] + "=="
    else if |d| == 2 then Quad(d[0], d[1], 0)[..3] + "="
    else Quad(d[0], d[1], d[2]) + Encode(d[3..])
  }

  /** Characters outside the alphabet are skipped. */
  function Kept(s: string): string {
    if s == "" then ""
    else (if Rank(s[0]).Some? then [s[0]] else "") + Kept(s[1..])
  }

  function Triple(q: string): (d: seq<Byte>)
    requires |q| == 4 && forall i :: 0 <= i < 4 ==> Rank(q[i]).Some?
  {
    var r0, r1, r2, r3 := Rank(q[0]).value, Rank(q[1]).value, Rank(q[2]).value, Rank(q[3]).value;
    [r0 * 4 + r1 / 16]
    + (if q[2] != '=' then [r1 % 16 * 16 + r2 / 4] else [])
    + (if q[3] != '=' then [r2 % 4 * 64 + r3] else [])
  }

  /** Every four characters give up to three bytes; fewer at the end give none. */
  function Triples(s: string): seq<Byte> {
    if |s| < 4 then []
    else (if forall i :: 0 <= i < 4 ==> Rank(s[i]).Some? then Triple(s[..4]) else []) + Triples(s[4..])
  }

  function Decode(s: string): seq<Byte> {
    Triples(Kept(s))
  }

  predicate AllRanked(s: string) {
    forall c :: c in s ==> Rank(c).Some?
  }

  lemma {:induction false} KeptAll(s: string)
    requires AllRanked(s)
    ensures Kept(s) == s
  {
    if s != "" {
      KeptAll(s[1..]);
    }
  }

  lemma {:induction false} KeptConcat(a: string, b: string)
    ensures Kept(a + b) == Kept(a) + Kept(b)
  {
    if a == "" {
      assert a + b == b;
    } else {
      assert (a + b)[1..] == a[1..] + b && (a + b)[0] == a[0];
      KeptConcat(a[1..], b);
      Assoc(if Rank(a[0]).Some? then [a[0]] else "", Kept(a[1..]), Kept(b));
    }
  }

  /** A character that counts for nothing makes no difference, wherever it stands. */
  lemma DecodeSkips(a: string, c: char, b: string)
    requires Rank(c).None?
    ensures Decode(a + [c] + b) == Decode(a + b)
  {
    KeptConcat(a + [c], b);
    KeptConcat(a, [c]);
    KeptConcat(a, b);
    assert [c][1..] == "" && Kept([c]) == "";
    assert Kept(a) + "" == Kept(a);
  }

  lemma QuadRanks(a: Byte, b: Byte, c: Byte)
    ensures var q := Quad(a, b, c);
      && Rank(q[0]) == Some(a / 4) && Rank(q[1]) == Some(a % 4 * 16 + b / 16)
      && Rank(q[2]) == Some(b % 16 * 4 + c / 64) && Rank(q[3]) == Some(c % 64)
      && q[2] != '=' && q[3] != '='
  {
    RankOfDigit(a / 4);
    RankOfDigit(a % 4 * 16 + b / 16);
    RankOfDigit(b % 16 * 4 + c / 64);
    RankOfDigit(c % 64);
  }

  lemma Regroup(a: Byte, b: Byte, c: Byte)
    ensures a / 4 * 4 + (a % 4 * 16 + b / 16) / 16 == a
    ensures (a % 4 * 16 + b / 16) % 16 * 16 + (b % 16 * 4 + c / 64) / 4 == b
    ensures (b % 16 * 4 + c / 64) % 4 * 64 + c % 64 == c
  {
  }

  lemma QuadDigits(a: Byte, b: Byte, c: Byte)
    ensures AllRanked(Quad(a, b, c)) && Triple(Quad(a, b, c)) == [a, b, c]
  {
    QuadRanks(a, b, c);
    Regroup(a, b, c);
  }

  lemma QuadDigits2(a: Byte, b: Byte)
    ensures var q := Quad(a, b, 0)[..3] + "=";
      AllRanked(q) && Triple(q) == [a, b]
  {
    QuadRanks(a, b, 0);
    Regroup(a, b, 0);
  }

  lemma QuadDigits1(a: Byte)
    ensures var q := Quad(a, 0, 0)[..2] + "==";
      AllRanked(q) && Triple(q) == [a]
  {
    QuadRanks(a, 0, 0);
    Regroup(a, 0, 0);
  }

  /** Decoding undoes encoding, for all bytes. */
  lemma {:induction false} DecodesEncoded(d: seq<Byte>)
    ensures Decode(Encode(d)) == d
    ensures |Encode(d)| == (|d| + 2) / 3 * 4
  {
    EncodedRanks(d);
    EncodedLength(d);
    KeptAll(Encode(d));
    TriplesOfEncoded(d);
  }

  lemma RankedConcat(a: string, b: string)
    requires AllRanked(a) && AllRanked(b)
    ensures AllRanked(a + b)
  {
  }

  lemma {:induction false} EncodedLength(d: seq<Byte>)
    ensures |Encode(d)| == (|d| + 2) / 3 * 4
  {
    if |d| > 2 {
      EncodedLength(d[3..]);
      assert |d[3..]| + 2 == |d| - 1 && (|d| - 1) / 3 + 1 == (|d| + 2) / 3;
    }
  }

  lemma {:induction false} EncodedRanks(d: seq<Byte>)
    ensures AllRanked(Encode(d))
  {
    if |d| == 1 {
      QuadDigits1(d[0]);
    } else if |d| == 2 {
      QuadDigits2(d[0], d[1]);
    } else if |d| > 2 {
      QuadDigits(d[0], d[1], d[2]);
      EncodedRanks(d[3..]);
      RankedConcat(Quad(d[0], d[1], d[2]), Encode(d[3..]));
    }
  }

  lemma {:induction false} TriplesOfEncoded(d: seq<Byte>)
    ensures Triples(Encode(d)) == d
  {
    EncodedLength(d);
    var s := Encode(d);
    if |d| == 1 {
      QuadDigits1(d[0]);
      assert s[..4] == s;
    } else if |d| == 2 {
      QuadDigits2(d[0], d[1]);
      assert s[..4] == s;
    } else if |d| > 2 {
      QuadDigits(d[0], d[1], d[2]);
      assert s[..4] == Quad(d[0], d[1], d[2]) && s[4..] == Encode(d[3..]);
      TriplesOfEncoded(d[3..]);
    }
  }

  /** Whole groups of three can be encoded by themselves. */
  lemma {:induction false} EncodeConcat(a: seq<Byte>, b: seq<Byte>)
    requires |a| % 3 == 0
    ensures Encode(a + b) == Encode(a) + Encode(b)
    decreases |a|
  {
    if a == [] {
      assert a + b == b;
    } else {
      assert (a + b)[3..] == a[3..] + b;
      EncodeConcat(a[3..], b);
    }
  }

  // ------------------------------------------------------------ chunked encoding

  method PutQuad(out: array<char>, at: nat, q: string)
    requires |q| == 4 && at + 4 <= out.Length
    modifies out
    ensures out[..at + 4] == old(out[..at]) + q
  {
    out[at], out[at + 1], out[at + 2], out[at + 3] := q[0], q[1], q[2], q[3];
  }

  /** Encodes the whole groups of `pending` into the buffer. */
  method EncodeGroups(pending: seq<Byte>, out: array<char>) returns (i: nat, convertedLen: nat, ghost k: nat)
    requires |pending| / 3 * 4 <= out.Length
    modifies out
    ensures i == 3 * k && |pending| - 3 < i <= |pending|
    ensures convertedLen == 4 * k <= out.Length && out[..convertedLen] == Encode(pending[..i])
  {
    i, convertedLen, k := 0, 0, 0;
    while i + 3 <= |pending|
      invariant 0 <= i == 3 * k <= |pending| && convertedLen == 4 * k <= out.Length
      invariant out[..convertedLen] == Encode(pending[..i])
    {
      OneGroup(pending, k);
      assert k + 1 <= |pending| / 3;
      PutQuad(out, convertedLen, Quad(pending[i], pending[i + 1], pending[i + 2]));
      i, convertedLen, k := i + 3, convertedLen + 4, k + 1;
    }
  }

  /**
   * g_base64_encode_step: encodes the whole groups of the carried bytes and the new
   * ones into the buffer, and carries the rest.
   */
  method EncodeStep(data: seq<Byte>, carry: seq<Byte>, out: array<char>)
    returns (convertedLen: nat, carry': seq<Byte>, ghost whole: seq<Byte>)
    requires |carry| <= 2 && (|data| / 3 + 1) * 4 + 4 <= out.Length
    modifies out
    ensures whole + carry' == carry + data && |whole| % 3 == 0 && |carry'| <= 2
    ensures convertedLen <= out.Length && out[..convertedLen] == Encode(whole)
  {
    var pending := carry + data;
    StepFits(|carry|, |data|);
    var i;
    ghost var k;
    i, convertedLen, k := EncodeGroups(pending, out);
    carry', whole := pending[i..], pending[..i];
    assert whole + carry' == pending;
  }

  /** The documented size is enough for every group a step can write. */
  lemma StepFits(carried: nat, length: nat)
    requires carried <= 2
    ensures (carried + length) / 3 * 4 <= (length / 3 + 1) * 4
  {
    assert (carried + length) / 3 <= (length + 3) / 3 == length / 3 + 1;
  }

  lemma OneGroup(d: seq<Byte>, k: nat)
    requires 3 * k + 3 <= |d|
    ensures var i := 3 * k; Encode(d[..i + 3]) == Encode(d[..i]) + Quad(d[i], d[i + 1], d[i + 2])
  {
    var i := 3 * k;
    var three := [d[i], d[i + 1], d[i + 2]];
    EncodeConcat(d[..i], three);
    assert d[..i + 3] == d[..i] + three;
    assert Encode(three) == Quad(d[i], d[i + 1], d[i + 2]) + [] by { assert three[3..] == []; }
  }

  /** g_base64_encode_close: the carried bytes, padded; nothing if none are carried. */
  method EncodeClose(carry: seq<Byte>, out: array<char>) returns (convertedLen: nat)
    requires |carry| <= 2 && 4 <= out.Length
    modifies out
    ensures convertedLen <= 4 && out[..convertedLen] == Encode(carry)
  {
    convertedLen := 0;
    if carry != [] {
      PutQuad(out, 0, Encode(carry));
      convertedLen := 4;
    }
  }

  // ----------------------------------------------------------------------- files

  datatype Io<T> = Done(value: T) | Failed(errno: int)

  /**
   * An open file; `faults` counts the system calls on it that failed and `lastErrno` is
   * the error of the last one; `got` are the bytes read so far, `synced` what the last
   * successful fsync made durable, and `changed` says whether another process has written
   * to the file or cut it since it was opened.
   */
  class OpenFile {
    var content: seq<Byte>
    var offset: nat
    ghost var faults: nat
    ghost var lastErrno: int
    ghost var synced: Option<seq<Byte>>
    ghost var got: seq<Byte>
    ghost var changed: bool

    /** Files stay below the range of an int. */
    ghost predicate Valid()
      reads this
    {
      && |content| <= INT_MAX && offset == |got| <= INT_MAX
      && (!changed ==> offset <= |content| && got == content[..offset])
    }

    constructor (content: seq<Byte>)
      ensures this.content == content && offset == 0 && got == [] && !changed && faults == 0
      ensures synced == None
    {
      this.content := content;
      offset, faults, got, changed, synced := 0, 0, [], false, None;
    }

    /** O_TRUNC. */
    method Truncate()
      modifies this`content, this`offset
      ensures content == [] && offset == 0
    {
      content, offset := [], 0;
    }

    /**
     * A read may be short or fail, but is empty only at end of file.  Before it another
     * process may have changed the file.
     */
    method Read(max: nat) returns (r: Io<seq<Byte>>)
      requires Valid() && max > 0
      modifies this
      ensures Valid() && (old(changed) ==> changed) && (!changed ==> content == old(content))
      ensures faults == old(faults) + if r.Failed? then 1 else 0
      ensures r.Failed? ==> lastErrno == r.errno
      ensures got == old(got) + if r.Done? then r.value else []
      ensures r.Done? ==> |r.value| <= max && (r.value == [] ==> offset >= |content|)
    {
      if * {
        var c: seq<Byte> := *;
        if |c| <= INT_MAX {
          content, changed := c, true;
        }
      }
      if * {
        var e :| 0 < e < 200;
        r, faults, lastErrno := Failed(e), faults + 1, e;
      } else if offset >= |content| {
        r := Done([]);
      } else {
        var n: nat :| 0 < n <= max && offset + n <= |content|;
        r := Done(content[offset..offset + n]);
        offset, got := offset + n, got + content[offset..offset + n];
      }
    }

    /** A write at the end of the file may be short or fail. */
    method Write(data: seq<Byte>) returns (r: Io<nat>)
      requires data != []
      modifies this`content, this`faults, this`lastErrno
      ensures faults == old(faults) + if r.Failed? then 1 else 0
      ensures r.Failed? ==> lastErrno == r.errno
      ensures r.Done? ==> 0 < r.value <= |data| && content == old(content) + data[..r.value]
      ensures r.Failed? ==> content == old(content)
    {
      if * {
        var e :| 0 < e < 200;
        r, faults, lastErrno := Failed(e), faults + 1, e;
      } else {
        var n: nat :| 0 < n <= |data|;
        content := content + data[..n];
        r := Done(n);
      }
    }

    /** fsync: only when it succeeds is the content durable. */
    method Sync() returns (r: Io<()>)
      modifies this`faults, this`lastErrno, this`synced
      ensures faults == old(faults) + if r.Failed? then 1 else 0
      ensures r.Failed? ==> lastErrno == r.errno
      ensures synced == if r.Done? then Some(content) else old(synced)
    {
      if * {
        var e :| 0 < e < 200;
        r, faults, lastErrno := Failed(e), faults + 1, e;
      } else {
        r, synced := Done(()), Some(content);
      }
    }
  }

  // -------------------------------------------------------------------- readfile

  /** Of the bytes read, `done` are encoded and `carry` are not yet. */
  ghost predicate Encoded(b64str: string, done: seq<Byte>, carry: seq<Byte>, d: seq<Byte>) {
    d == done + carry && |done| % 3 == 0 && |carry| <= 2 && b64str == Encode(done)
  }

  lemma EncodedMore(b64str: string, done: seq<Byte>, carry: seq<Byte>, d: seq<Byte>,
                    chunk: seq<Byte>, whole: seq<Byte>, carry': seq<Byte>)
    requires Encoded(b64str, done, carry, d)
    requires whole + carry' == carry + chunk && |whole| % 3 == 0 && |carry'| <= 2
    ensures Encoded(b64str + Encode(whole), done + whole, carry', d + chunk)
  {
    EncodeConcat(done, whole);
    Assoc(done, carry, chunk);
    Assoc(done, whole, carry');
    ThreesAdd(|done|, |whole|);
  }

  lemma ThreesAdd(m: nat, n: nat)
    requires m % 3 == 0 && n % 3 == 0
    ensures (m + n) % 3 == 0
  {
    assert m == m / 3 * 3 && n == n / 3 * 3;
  }

  datatype Reading = Finished(b64: string) | ReadError(errno: int) | StillReading

  /**
   * exp_readfile, of a file that had `size` bytes when it was opened, looked at for at
   * most `limit` reads.  Whatever the sizes of the reads, and whatever other processes
   * do to the file meanwhile, the chunks encoded one by one are the encoding of the
   * bytes read as a whole.  The loop is over without an error if and only if as many
   * bytes came as the file had: on a file left alone each read brings it nearer, and on
   * a file that has lost bytes it is never over.
   */
  method ReadFile(f: OpenFile, size: nat, buffsize: nat, limit: nat) returns (r: Reading)
    requires buffsize > 0 && f.Valid() && f.offset == 0
    modifies f
    ensures f.Valid() && (r.ReadError? <==> f.faults > old(f.faults)) && f.faults >= old(f.faults)
    ensures r.ReadError? ==> r.errno == f.lastErrno
    ensures |f.got| <= 0x7FFF_FFFF
    ensures (old(f.changed) ==> f.changed) && (!f.changed ==> f.content == old(f.content))
    ensures !r.ReadError? ==> (r.Finished? <==> |f.got| >= size)
    ensures r.Finished? ==> r.b64 == Encode(f.got) && |f.got| < size + buffsize
    ensures !f.changed && size <= |f.content| && limit >= size ==> !r.StillReading?
    ensures !f.changed && size > |f.content| ==> !r.Finished?
  {
    var b64buffsize := (buffsize / 3 + 1) * 4 + 4;
    var b64buff := new char[b64buffsize];
    var totalRd, b64str, carry, left := 0, "", [], limit;
    ghost var done: seq<Byte> := [];
    var convertedLen;
    while totalRd < size && left > 0
      invariant f.Valid() && totalRd == |f.got| < size + buffsize
      invariant f.faults == old(f.faults)
      invariant (old(f.changed) ==> f.changed) && (!f.changed ==> f.content == old(f.content))
      invariant !f.changed && size <= |f.content| ==> totalRd + left >= limit
      invariant Encoded(b64str, done, carry, f.got)
      decreases left
    {
      ghost var before, was := f.got, carry;
      var rd := f.Read(buffsize);
      left := left - 1;
      if rd.Failed? {
        convertedLen := EncodeClose(carry, b64buff);
        return ReadError(rd.errno);
      }
      totalRd := totalRd + |rd.value|;
      ghost var whole;
      convertedLen, carry, whole := EncodeStep(rd.value, carry, b64buff);
      EncodedMore(b64str, done, was, before, rd.value, whole, carry);
      b64str, done := b64str + b64buff[..convertedLen], done + whole;
    }
    if totalRd < size {
      return StillReading;
    }
    EncodeConcat(done, carry);
    if totalRd > 0 {
      convertedLen := EncodeClose(carry, b64buff);
      b64str := b64str + b64buff[..convertedLen];
    }
    r := Finished(b64str);
  }

  // ------------------------------------------------------------------- writefile

  /**
   * exp_writefile: on success the file holds the decoded data and an fsync has made it
   * durable; on failure it holds a prefix of it.  It fails exactly if a system call did,
   * with the error of that call.
   */
  method WriteFile(f: OpenFile, dataStr: string) returns (r: Io<()>)
    modifies f
    ensures f.content <= Decode(dataStr) && (r.Done? <==> f.faults == old(f.faults))
    ensures r.Done? ==> f.content == Decode(dataStr) && f.synced == Some(Decode(dataStr))
    ensures r.Failed? ==> r.errno == f.lastErrno
  {
    f.Truncate();
    var data := Decode(dataStr);
    var bwritten := 0;
    while bwritten < |data|
      invariant 0 <= bwritten <= |data| && f.content == data[..bwritten] && f.faults == old(f.faults)
    {
      var rv := f.Write(data[bwritten..]);
      if rv.Failed? {
        return Failed(rv.errno);
      }
      bwritten := bwritten + rv.value;
    }
    r := f.Sync();
  }

  // ------------------------------------------------------------------ client side

  /** IOProcess.writefile: what the caller passes in is what the file holds, durably. */
  method ClientWrite(f: OpenFile, data: seq<Byte>) returns (r: Io<()>)
    modifies f
    ensures f.content <= data && (r.Done? ==> f.content == data && f.synced == Some(data))
    ensures r.Done? <==> f.faults == old(f.faults)
    ensures r.Failed? ==> r.errno == f.lastErrno
  {
    DecodesEncoded(data);
    r := WriteFile(f, Encode(data));
  }

  /** IOProcess.readfile: the caller gets the bytes that were read; of a file left alone, its bytes. */
  method ClientRead(f: OpenFile, size: nat, buffsize: nat, limit: nat) returns (r: Option<Io<seq<Byte>>>)
    requires buffsize > 0 && f.Valid() && f.offset == 0
    modifies f
    ensures r.Some? && r.value.Failed? <==> f.faults > old(f.faults)
    ensures r.Some? && r.value.Failed? ==> r.value.errno == f.lastErrno
    ensures r.Some? && r.value.Done? ==> r.value.value == f.got && size <= |f.got| < size + buffsize
    ensures !f.changed && size == |old(f.content)| ==>
              && (limit >= size ==> r.Some?)
              && (r.Some? && r.value.Done? ==> r.value.value == old(f.content))
  {
    var b64result := ReadFile(f, size, buffsize, limit);
    match b64result
    case StillReading => r := None;
    case ReadError(errno) => r := Some(Failed(errno));
    case Finished(b64) =>
      DecodesEncoded(f.got);
      r := Some(Done(Decode(b64)));
  }

  /** A file that had two bytes at `fstat` and has one when it is read: left alone, it is never read out. */
  method ReadOfCutFile(limit: nat) returns (r: Reading, f: OpenFile)
    ensures fresh(f) && (r.Finished? ==> f.changed)
  {
    f := new OpenFile([7]);
    r := ReadFile(f, 2, 4096, limit);
  }
}
