/**
 * The request header counts characters while the pipe carries bytes; the two agree
 * because the dumped text is pure ASCII.
 */
module AsciiText {
  import opened JsonValues
  import opened Framing
  import opened Sequences

  type CodePoint = c: int | 0 <= c < 0x110000
  type Text = seq<CodePoint>

  predicate Plain(s: Text) {
    forall i :: 0 <= i < |s| ==> 32 <= s[i] <= 126
  }

  type PlainText = s: Text | Plain(s) witness []

  /** The arguments of a command. */
  datatype Value =
    | VNull
    | VBool(b: bool)
    | VInt(n: int)
    | VFloat(token: PlainText)
    | VStr(s: Text)
    | VList(items: seq<Value>)
    | VDict(entries: seq<Entry>)
  datatype Entry = Entry(key: Text, value: Value)

  function Lit(s: string): (t: Text)
    ensures |t| == |s|
  {
    seq(|s|, i requires 0 <= i < |s| => s[i] as int)
  }

  // ------------------------------------------------------------------- escaping

  function HexDigit(d: nat): (c: CodePoint)
    requires d < 16
    ensures 48 <= c <= 57 || 97 <= c <= 102
  {
    if d < 10 then 48 + d else 87 + d
  }

  function Unicode(n: nat): (t: Text)
    requires n < 0x10000
    ensures |t| == 6 && Plain(t)
  {
    var a := n / 16;
    var b := a / 16;
    [92, 117, HexDigit(b / 16), HexDigit(b % 16), HexDigit(a % 16), HexDigit(n % 16)]
  }

  predicate High(n: nat) {
    0xD800 <= n < 0xDC00
  }

  predicate Low(n: nat) {
    0xDC00 <= n < 0xE000
  }

  function HighHalf(c: CodePoint): (h: nat)
    requires c >= 0x10000
    ensures High(h)
  {
    0xD800 + (c - 0x10000) / 1024
  }

  function LowHalf(c: CodePoint): (l: nat)
    requires c >= 0x10000
    ensures Low(l)
  {
    0xDC00 + (c - 0x10000) % 1024
  }

  /** One character of a dumped string, with everything but printable ASCII escaped. */
  function Escape(c: CodePoint): (t: Text)
    ensures Plain(t)
  {
    if c == 34 || c == 92 then [92, c]
    else if c == 10 then [92, 110]
    else if c == 13 then [92, 114]
    else if c == 9 then [92, 116]
    else if c == 12 then [92, 102]
    else if c == 8 then [92, 98]
    else if 32 <= c <= 126 then [c]
    else if c < 0x10000 then Unicode(c)
    else Unicode(HighHalf(c)) + Unicode(LowHalf(c))
  }

  function EscapeAll(s: Text): Text {
    if s == [] then [] else Escape(s[0]) + EscapeAll(s[1..])
  }

  // -------------------------------------------------------------------- dumping

  function Decimal(n: nat): Text {
    if n < 10 then [48 + n] else Decimal(n / 10) + [48 + n % 10]
  }

  function Quoted(s: Text): Text {
    [34] + EscapeAll(s) + [34]
  }

  function Dumps(v: Value): Text
    decreases v, 1
  {
    match v
    case VNull => Lit("null")
    case VBool(b) => if b then Lit("true") else Lit("false")
    case VInt(n) => if n < 0 then [45] + Decimal(-n) else Decimal(n)
    case VFloat(token) => token
    case VStr(s) => Quoted(s)
    case VList(items) => [91] + DumpItems(items) + [93]
    case VDict(entries) => [123] + DumpEntries(entries) + [125]
  }

  function DumpItems(vs: seq<Value>): Text
    decreases vs, 0
  {
    if vs == [] then []
    else Dumps(vs[0]) + (if |vs| == 1 then [] else Lit(", ") + DumpItems(vs[1..]))
  }

  function DumpEntries(es: seq<Entry>): Text
    decreases es, 0
  {
    if es == [] then []
    else if |es| == 1 then DumpEntry(es[0])
    else DumpEntry(es[0]) + (Lit(", ") + DumpEntries(es[1..]))
  }

  function DumpEntry(e: Entry): Text
    decreases e, 0
  {
    Quoted(e.key) + Lit(": ") + Dumps(e.value)
  }

  /** The short escapes, and a minus sign for negative numbers alone. */
  lemma DumpedForms(c: CodePoint, n: int)
    ensures Escape(8) == Lit("\\b") && Escape(9) == Lit("\\t") && Escape(10) == Lit("\\n")
    ensures Escape(12) == Lit("\\f") && Escape(13) == Lit("\\r")
    ensures Escape(34) == Lit("\\\"") && Escape(92) == Lit("\\\\")
    ensures 32 <= c <= 126 && c != 34 && c != 92 ==> Escape(c) == [c]
    ensures |Dumps(VInt(n))| > 0 && (Dumps(VInt(n))[0] == 45 <==> n < 0)
  {
    DecimalPlain(if n < 0 then -n else n);
    NoSign(if n < 0 then -n else n);
  }

  lemma {:induction false} NoSign(n: nat)
    ensures Decimal(n) != [] && Decimal(n)[0] != 45
  {
    if n >= 10 {
      NoSign(n / 10);
    }
  }

  lemma {:induction false} EscapedPlain(s: Text)
    ensures Plain(Quoted(s)) && Plain(EscapeAll(s))
  {
    if s != [] {
      EscapedPlain(s[1..]);
    }
  }

  lemma {:induction false} DecimalPlain(n: nat)
    ensures Plain(Decimal(n)) && Decimal(n) != []
  {
    if n >= 10 {
      DecimalPlain(n / 10);
    }
  }

  lemma PlainConcat(a: Text, b: Text)
    requires Plain(a) && Plain(b)
    ensures Plain(a + b)
  {
  }

  /** Whatever the arguments, the text is printable ASCII. */
  lemma {:induction false} DumpsPlain(v: Value)
    ensures Plain(Dumps(v))
    decreases v, 1
  {
    match v
    case VNull =>
    case VBool(b) =>
    case VInt(n) => DecimalPlain(if n < 0 then -n else n);
    case VFloat(token) =>
    case VStr(s) => EscapedPlain(s);
    case VList(items) => ItemsPlain(items);
    case VDict(entries) => EntriesPlain(entries);
  }

  lemma {:induction false} ItemsPlain(vs: seq<Value>)
    ensures Plain(DumpItems(vs))
    decreases vs, 0
  {
    if vs != [] {
      DumpsPlain(vs[0]);
      ItemsPlain(vs[1..]);
    }
  }

  lemma {:induction false} EntriesPlain(es: seq<Entry>)
    ensures Plain(DumpEntries(es))
    decreases es, 0
  {
    if es != [] {
      EscapedPlain(es[0].key);
      DumpsPlain(es[0].value);
      EntriesPlain(es[1..]);
      PlainConcat(Quoted(es[0].key), Lit(": "));
      PlainConcat(Lit(", "), DumpEntries(es[1..]));
      PlainConcat(Quoted(es[0].key) + Lit(": "), Dumps(es[0].value));
    }
  }

  // ----------------------------------------------------------------------- UTF-8

  /** Section 3 of RFC 3629; surrogates have no encoding. */
  function Utf8Char(c: CodePoint): (bs: seq<Byte>)
    ensures 1 <= |bs| <= 4 && (|bs| == 1 <==> c < 0x80)
  {
    if c < 0x80 then [c]
    else if c < 0x800 then [0xC0 + c / 64, 0x80 + c % 64]
    else if c < 0x10000 then [0xE0 + c / 4096, 0x80 + c / 64 % 64, 0x80 + c % 64]
    else [0xF0 + c / 262144, 0x80 + c / 4096 % 64, 0x80 + c / 64 % 64, 0x80 + c % 64]
  }

  predicate Encodable(s: Text) {
    forall i :: 0 <= i < |s| ==> !High(s[i]) && !Low(s[i])
  }

  function Utf8(s: Text): seq<Byte>
    requires Encodable(s)
  {
    if s == [] then [] else Utf8Char(s[0]) + Utf8(s[1..])
  }

  /** Characters can be counted for bytes exactly when the text is ASCII. */
  lemma {:induction false} CountIff(s: Text)
    requires Encodable(s)
    ensures |Utf8(s)| >= |s|
    ensures |Utf8(s)| == |s| <==> forall i :: 0 <= i < |s| ==> s[i] < 0x80
  {
    if s != [] {
      CountIff(s[1..]);
      assert forall i :: 0 <= i < |s| - 1 ==> s[1..][i] == s[i + 1];
      assert |Utf8Char(s[0])| == 1 <==> s[0] < 0x80;
    }
  }

  /** A plain text is its own UTF-8. */
  lemma {:induction false} PlainBytes(s: Text)
    requires Plain(s)
    ensures Encodable(s) && |Utf8(s)| == |s| && forall i :: 0 <= i < |s| ==> Utf8(s)[i] == s[i]
  {
    if s != [] {
      PlainBytes(s[1..]);
      assert Utf8(s) == [s[0]] + Utf8(s[1..]);
    }
  }
}
