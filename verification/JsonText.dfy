/** JSON text read by the grammar of RFC 8259, and what it makes of the texts that are dumped. */
module JsonText {
  import opened JsonValues
  import opened Framing
  import opened AsciiText
  import opened Sequences

  // ----------------------------------------------------------------- characters

  function HexValue(c: CodePoint): (d: Option<nat>)
    ensures d.Some? ==> d.value < 16
  {
    if 48 <= c <= 57 then Some(c - 48)
    else if 97 <= c <= 102 then Some(c - 87)
    else if 65 <= c <= 70 then Some(c - 55)
    else None
  }

  /** What two surrogates stand for together. */
  function Join(h: nat, l: nat): (c: CodePoint)
    requires High(h) && Low(l)
    ensures c >= 0x10000 && HighHalf(c) == h && LowHalf(c) == l
  {
    0x10000 + (h - 0xD800) * 1024 + (l - 0xDC00)
  }

  lemma JoinHalves(c: CodePoint)
    requires c >= 0x10000
    ensures Join(HighHalf(c), LowHalf(c)) == c
  {
  }

  /** A \u escape at the front of the text, as section 7 of RFC 8259 reads it. */
  function ReadUnicode(t: Text): (n: Option<nat>)
    ensures n.Some? ==> |t| >= 6 && n.value < 0x10000
  {
    if |t| >= 6 && t[0] == 92 && t[1] == 117
       && HexValue(t[2]).Some? && HexValue(t[3]).Some? && HexValue(t[4]).Some? && HexValue(t[5]).Some?
    then Some(HexValue(t[2]).value * 4096 + HexValue(t[3]).value * 256
              + HexValue(t[4]).value * 16 + HexValue(t[5]).value)
    else None
  }

  /** The character at the front of the text and how much of the text it takes. */
  function ReadChar(t: Text): (r: Option<(CodePoint, nat)>)
    requires t != []
    ensures r.Some? ==> 0 < r.value.1 <= |t|
  {
    if t[0] < 32 || t[0] == 34 then None
    else if t[0] != 92 then Some((t[0], 1))
    else if |t| < 2 then None
    else if t[1] == 34 || t[1] == 92 || t[1] == 47 then Some((t[1], 2))
    else if t[1] == 110 then Some((10, 2))
    else if t[1] == 114 then Some((13, 2))
    else if t[1] == 116 then Some((9, 2))
    else if t[1] == 102 then Some((12, 2))
    else if t[1] == 98 then Some((8, 2))
    else
      match ReadUnicode(t)
      case None => None
      case Some(n) =>
        var low := ReadUnicode(t[6..]);
        if High(n) && low.Some? && Low(low.value)
        then Some((Join(n, low.value), 12))
        else Some((n, 6))
  }

  lemma ReadsUnicode(n: nat, rest: Text)
    requires n < 0x10000
    ensures ReadUnicode(Unicode(n) + rest) == Some(n) && (Unicode(n) + rest)[6..] == rest
  {
    var t := Unicode(n) + rest;
    SplitAt(Unicode(n), rest);
    assert t[..6] == Unicode(n);
    HexDigits(n);
    assert t[0] == 92 && t[1] == 117 && t[2] == t[..6][2] && t[3] == t[..6][3]
        && t[4] == t[..6][4] && t[5] == t[..6][5];
  }

  lemma HexDigits(n: nat)
    requires n < 0x10000
    ensures var u := Unicode(n);
      && HexValue(u[2]).Some? && HexValue(u[3]).Some? && HexValue(u[4]).Some? && HexValue(u[5]).Some?
      && HexValue(u[2]).value * 4096 + HexValue(u[3]).value * 256
         + HexValue(u[4]).value * 16 + HexValue(u[5]).value == n
  {
    var a := n / 16;
    var b := a / 16;
    HexOfDigit(b / 16);
    HexOfDigit(b % 16);
    HexOfDigit(a % 16);
    HexOfDigit(n % 16);
  }

  lemma HexOfDigit(d: nat)
    requires d < 16
    ensures HexValue(HexDigit(d)) == Some(d)
  {
  }

  lemma ReadsPair(c: CodePoint, rest: Text)
    requires c >= 0x10000
    ensures ReadChar(Escape(c) + rest) == Some((c, 12)) && |Escape(c)| == 12
  {
    var h, l := HighHalf(c), LowHalf(c);
    JoinHalves(c);
    Assoc(Unicode(h), Unicode(l), rest);
    ReadsUnicode(h, Unicode(l) + rest);
    ReadsUnicode(l, rest);
    ReadsHalves(Escape(c) + rest, h, l);
  }

  lemma ReadsHalves(t: Text, h: nat, l: nat)
    requires ReadUnicode(t) == Some(h) && ReadUnicode(t[6..]) == Some(l) && High(h) && Low(l)
    ensures ReadChar(t) == Some((Join(h, l), 12))
  {
  }

  /** An escape other than \u, or none. */
  lemma ShortEscape(c: CodePoint, rest: Text)
    requires c == 34 || c == 92 || c == 10 || c == 13 || c == 9 || c == 12 || c == 8 || 32 <= c <= 126
    ensures ReadUnicode(Escape(c) + rest).None?
  {
    assert (Escape(c) + rest)[0] == Escape(c)[0];
    if |Escape(c)| == 2 {
      assert (Escape(c) + rest)[1] == Escape(c)[1];
    }
  }

  /** What a reader sees at the front of an escaped string. */
  lemma ReadsEscaped(c: CodePoint, rest: Text)
    ensures var low := ReadUnicode(rest);
      ReadChar(Escape(c) + rest) ==
      if High(c) && low.Some? && Low(low.value)
      then Some((Join(c, low.value), 12))
      else Some((c, |Escape(c)|))
  {
    if c == 34 || c == 92 || c == 10 || c == 13 || c == 9 || c == 12 || c == 8 || 32 <= c <= 126 {
    } else if c < 0x10000 {
      ReadsUnicode(c, rest);
    } else {
      ReadsPair(c, rest);
    }
  }

  // -------------------------------------------------------------------- strings

  /** The characters up to the closing quote, and the text behind it. */
  function ReadString(t: Text): (r: Option<(Text, Text)>)
    ensures r.Some? ==> |r.value.1| < |t|
    decreases |t|
  {
    if t == [] then None
    else if t[0] == 34 then Some(([], t[1..]))
    else
      match ReadChar(t)
      case None => None
      case Some((c, n)) =>
        match ReadString(t[n..])
        case None => None
        case Some((s, rest)) => Some(([c] + s, rest))
  }

  /** Two separate surrogates that look like one character once written as escapes. */
  predicate SplitPair(s: Text) {
    exists i :: 0 <= i < |s| - 1 && High(s[i]) && Low(s[i + 1])
  }

  /** A string as it comes out of the text: where two surrogates meet they become one character. */
  function JoinPairs(s: Text): Text {
    if s == [] then []
    else if |s| > 1 && High(s[0]) && Low(s[1]) then [Join(s[0], s[1])] + JoinPairs(s[2..])
    else [s[0]] + JoinPairs(s[1..])
  }

  lemma {:induction false} JoinedIff(s: Text)
    ensures |JoinPairs(s)| <= |s|
    ensures JoinPairs(s) == s <==> !SplitPair(s)
    ensures SplitPair(s) ==> |JoinPairs(s)| < |s|
    decreases |s|
  {
    if s != [] {
      PairsCons(s);
      if |s| > 1 && High(s[0]) && Low(s[1]) {
        JoinedIff(s[2..]);
      } else {
        JoinedIff(s[1..]);
        SplitAt([s[0]], JoinPairs(s[1..]));
        assert s == [s[0]] + s[1..];
      }
    }
  }

  lemma PairsCons(s: Text)
    requires s != []
    ensures SplitPair(s) <==> (|s| > 1 && High(s[0]) && Low(s[1])) || SplitPair(s[1..])
  {
    var t := s[1..];
    if SplitPair(t) {
      var i :| 0 <= i < |t| - 1 && High(t[i]) && Low(t[i + 1]);
      assert s[i + 1] == t[i] && s[i + 2] == t[i + 1];
    }
    if SplitPair(s) {
      var i :| 0 <= i < |s| - 1 && High(s[i]) && Low(s[i + 1]);
      assert i > 0 ==> t[i - 1] == s[i] && t[i] == s[i + 1];
    }
  }

  /** Only a low surrogate at the front of a string is read as one. */
  lemma FirstUnicode(s: Text, rest: Text)
    ensures var u := ReadUnicode(EscapeAll(s) + ([34] + rest));
      if s != [] && Low(s[0]) then u == Some(s[0]) else u.None? || !Low(u.value)
  {
    if s == [] {
      assert (EscapeAll(s) + ([34] + rest))[0] == 34;
    } else {
      var c, more := s[0], EscapeAll(s[1..]) + ([34] + rest);
      Assoc(Escape(c), EscapeAll(s[1..]), [34] + rest);
      if c == 34 || c == 92 || c == 10 || c == 13 || c == 9 || c == 12 || c == 8 || 32 <= c <= 126 {
        ShortEscape(c, more);
      } else if c < 0x10000 {
        ReadsUnicode(c, more);
      } else {
        Assoc(Unicode(HighHalf(c)), Unicode(LowHalf(c)), more);
        ReadsUnicode(HighHalf(c), Unicode(LowHalf(c)) + more);
      }
    }
  }

  /** What comes of an escaped string, whatever is in it and whatever follows its closing quote. */
  lemma {:induction false} StringReads(s: Text, rest: Text)
    ensures ReadString(EscapeAll(s) + ([34] + rest)) == Some((JoinPairs(s), rest))
    decreases |s|
  {
    var end := [34] + rest;
    if s == [] {
      assert EscapeAll(s) + end == end;
    } else {
      var c, more := s[0], EscapeAll(s[1..]) + end;
      Assoc(Escape(c), EscapeAll(s[1..]), end);
      ReadsEscaped(c, more);
      FirstUnicode(s[1..], rest);
      if |s| > 1 && High(c) && Low(s[1]) {
        PairReads(c, s[1], EscapeAll(s[2..]), end);
        StringReads(s[2..], rest);
      } else {
        SplitAt(Escape(c), more);
        StringReads(s[1..], rest);
      }
    }
  }

  lemma PairReads(h: CodePoint, l: CodePoint, escaped: Text, end: Text)
    requires High(h) && Low(l)
    ensures var t := Escape(h) + ((Escape(l) + escaped) + end);
      |t| >= 12 && t[12..] == escaped + end
  {
    Assoc(Escape(l), escaped, end);
    Assoc(Escape(h), Escape(l), escaped + end);
    SplitAt(Escape(h) + Escape(l), escaped + end);
  }

  /**
   * Reading an escaped string by the rules of section 7 of RFC 8259, which is not to
   * say with the server's parser library, gives it back exactly if it holds no split
   * surrogate pair.
   */
  lemma UnescapeIff(s: Text, rest: Text)
    ensures ReadString(EscapeAll(s) + ([34] + rest)) == Some((s, rest)) <==> !SplitPair(s)
  {
    StringReads(s, rest);
    JoinedIff(s);
  }

  // -------------------------------------------------------------------- numbers

  predicate NumberChar(c: CodePoint) {
    48 <= c <= 57 || c == 43 || c == 45 || c == 46 || c == 69 || c == 101
  }

  predicate AllNumberChars(t: Text) {
    forall i :: 0 <= i < |t| ==> NumberChar(t[i])
  }

  /** How much of the text at its front could belong to a number. */
  function NumberLength(t: Text): (n: nat)
    ensures n <= |t| && AllNumberChars(t[..n])
  {
    if t == [] || !NumberChar(t[0]) then 0 else 1 + NumberLength(t[1..])
  }

  predicate Digits(t: Text) {
    t != [] && forall i :: 0 <= i < |t| ==> 48 <= t[i] <= 57
  }

  function Unsigned(t: Text): Text {
    if t != [] && t[0] == 45 then t[1..] else t
  }

  /** An optional minus sign, then digits without a leading zero. */
  predicate IsInteger(t: Text) {
    Digits(Unsigned(t)) && (|Unsigned(t)| == 1 || Unsigned(t)[0] != 48)
  }

  predicate IsFraction(t: Text) {
    t != [] && t[0] == 46 && Digits(t[1..])
  }

  predicate IsExponent(t: Text) {
    |t| > 1 && (t[0] == 69 || t[0] == 101) && (Digits(t[1..]) || ((t[1] == 43 || t[1] == 45) && Digits(t[2..])))
  }

  /** A number with a fraction, an exponent, or both. */
  predicate IsFloat(t: Text) {
    exists i, j :: 0 <= i <= j <= |t| && FloatAt(t, i, j)
  }

  /** The fraction begins at i, if there is one, and the exponent at j. */
  predicate FloatAt(t: Text, i: nat, j: nat)
    requires i <= j <= |t|
  {
    i < |t| && IsInteger(t[..i]) && (i == j || IsFraction(t[i..j])) && (j == |t| || IsExponent(t[j..]))
  }

  function DigitsValue(t: Text): int
    requires forall i :: 0 <= i < |t| ==> 48 <= t[i] <= 57
  {
    if t == [] then 0 else 10 * DigitsValue(t[..|t| - 1]) + (t[|t| - 1] - 48)
  }

  function IntegerValue(t: Text): int
    requires IsInteger(t)
  {
    if t[0] == 45 then -DigitsValue(t[1..]) else DigitsValue(t)
  }

  function ReadNumber(t: Text): (r: Option<(Value, Text)>)
    ensures r.Some? ==> |r.value.1| < |t|
  {
    var n := NumberLength(t);
    if IsInteger(t[..n]) then Some((VInt(IntegerValue(t[..n])), t[n..]))
    else if IsFloat(t[..n]) then Some((VFloat(t[..n]), t[n..]))
    else None
  }

  // --------------------------------------------------------------------- values

  function SkipSpace(t: Text): (r: Text)
    ensures |r| <= |t|
  {
    if t != [] && (t[0] == 32 || t[0] == 9 || t[0] == 10 || t[0] == 13) then SkipSpace(t[1..]) else t
  }

  function ReadName(t: Text): (r: Option<(Value, Text)>)
    ensures r.Some? ==> |r.value.1| < |t|
  {
    if Lit("null") <= t then Some((VNull, t[4..]))
    else if Lit("true") <= t then Some((VBool(true), t[4..]))
    else if Lit("false") <= t then Some((VBool(false), t[5..]))
    else None
  }

  /** The value at the front of the text, and the text behind it. */
  function ReadValue(t: Text): (r: Option<(Value, Text)>)
    ensures r.Some? ==> |r.value.1| < |t|
    decreases |t|, 0
  {
    var u := SkipSpace(t);
    if u == [] then None
    else if u[0] == 34 then
      match ReadString(u[1..])
      case None => None
      case Some((s, rest)) => Some((VStr(s), rest))
    else if u[0] == 91 then
      var w := SkipSpace(u[1..]);
      if w != [] && w[0] == 93 then Some((VList([]), w[1..]))
      else
        match ReadItems(w)
        case None => None
        case Some((items, rest)) => Some((VList(items), rest))
    else if u[0] == 123 then
      var w := SkipSpace(u[1..]);
      if w != [] && w[0] == 125 then Some((VDict([]), w[1..]))
      else
        match ReadEntries(w)
        case None => None
        case Some((entries, rest)) => Some((VDict(entries), rest))
    else if u[0] == 45 || 48 <= u[0] <= 57 then ReadNumber(u)
    else ReadName(u)
  }

  /** Items up to the closing bracket, of which there is at least one. */
  function ReadItems(t: Text): (r: Option<(seq<Value>, Text)>)
    ensures r.Some? ==> |r.value.1| < |t|
    decreases |t|, 1
  {
    match ReadValue(t)
    case None => None
    case Some((v, behind)) =>
      var u := SkipSpace(behind);
      if u == [] then None
      else if u[0] == 93 then Some(([v], u[1..]))
      else if u[0] != 44 then None
      else
        match ReadItems(u[1..])
        case None => None
        case Some((vs, rest)) => Some(([v] + vs, rest))
  }

  /** Entries up to the closing brace, of which there is at least one. */
  function ReadEntries(t: Text): (r: Option<(seq<Entry>, Text)>)
    ensures r.Some? ==> |r.value.1| < |t|
    decreases |t|, 1
  {
    match ReadEntry(t)
    case None => None
    case Some((e, behind)) =>
      var u := SkipSpace(behind);
      if u == [] then None
      else if u[0] == 125 then Some(([e], u[1..]))
      else if u[0] != 44 then None
      else
        match ReadEntries(u[1..])
        case None => None
        case Some((es, rest)) => Some(([e] + es, rest))
  }

  function ReadEntry(t: Text): (r: Option<(Entry, Text)>)
    ensures r.Some? ==> |r.value.1| < |t|
    decreases |t|, 0
  {
    var u := SkipSpace(t);
    if u == [] || u[0] != 34 then None
    else
      match ReadString(u[1..])
      case None => None
      case Some((key, behind)) =>
        var w := SkipSpace(behind);
        if w == [] || w[0] != 58 then None
        else
          match ReadValue(w[1..])
          case None => None
          case Some((v, rest)) => Some((Entry(key, v), rest))
  }

  /** A JSON text is one value, with nothing but white space around it. */
  function ReadText(t: Text): Option<Value> {
    match ReadValue(t)
    case None => None
    case Some((v, rest)) => if SkipSpace(rest) == [] then Some(v) else None
  }

  // ------------------------------------------------------- reading dumped values

  /** Every double in the value is written as JSON has it; that leaves out NaN and the infinities. */
  predicate JsonFloats(v: Value) {
    match v
    case VFloat(token) => IsFloat(token)
    case VList(items) => forall i :: 0 <= i < |items| ==> JsonFloats(items[i])
    case VDict(entries) => forall i :: 0 <= i < |entries| ==> JsonFloats(entries[i].value)
    case _ => true
  }

  /** The value as it comes out of the text. */
  function Joined(v: Value): Value {
    match v
    case VStr(s) => VStr(JoinPairs(s))
    case VList(items) => VList(seq(|items|, i requires 0 <= i < |items| => Joined(items[i])))
    case VDict(entries) =>
      VDict(seq(|entries|, i requires 0 <= i < |entries| =>
        Entry(JoinPairs(entries[i].key), Joined(entries[i].value))))
    case _ => v
  }

  /** No string in the value, key or not, holds a split surrogate pair. */
  predicate NoSplitPair(v: Value) {
    match v
    case VStr(s) => !SplitPair(s)
    case VList(items) => forall i :: 0 <= i < |items| ==> NoSplitPair(items[i])
    case VDict(entries) =>
      forall i :: 0 <= i < |entries| ==> !SplitPair(entries[i].key) && NoSplitPair(entries[i].value)
    case _ => true
  }

  lemma {:induction false} JoinedSame(v: Value)
    ensures Joined(v) == v <==> NoSplitPair(v)
  {
    match v
    case VStr(s) => JoinedIff(s);
    case VList(items) =>
      forall i | 0 <= i < |items| ensures Joined(items[i]) == items[i] <==> NoSplitPair(items[i]) {
        JoinedSame(items[i]);
      }
      ItemsSame(items);
    case VDict(entries) =>
      forall i | 0 <= i < |entries|
        ensures Joined(entries[i].value) == entries[i].value <==> NoSplitPair(entries[i].value)
        ensures JoinPairs(entries[i].key) == entries[i].key <==> !SplitPair(entries[i].key)
      {
        JoinedSame(entries[i].value);
        JoinedIff(entries[i].key);
      }
      EntriesSame(entries);
    case _ =>
  }

  lemma ItemsSame(items: seq<Value>)
    ensures Joined(VList(items)) == VList(items) <==> forall i :: 0 <= i < |items| ==> Joined(items[i]) == items[i]
  {
    var js := Joined(VList(items)).items;
    assert forall i :: 0 <= i < |items| ==> js[i] == Joined(items[i]);
    assert js == items <==> forall i :: 0 <= i < |items| ==> js[i] == items[i];
  }

  lemma EntriesSame(entries: seq<Entry>)
    ensures Joined(VDict(entries)) == VDict(entries) <==>
            forall i :: 0 <= i < |entries| ==>
              JoinPairs(entries[i].key) == entries[i].key && Joined(entries[i].value) == entries[i].value
  {
    var js := Joined(VDict(entries)).entries;
    assert forall i :: 0 <= i < |entries| ==>
      js[i] == Entry(JoinPairs(entries[i].key), Joined(entries[i].value));
    assert js == entries <==> forall i :: 0 <= i < |entries| ==> js[i] == entries[i];
  }

  /** What may follow a value: nothing that a number could go on with. */
  predicate Ends(rest: Text) {
    rest == [] || !NumberChar(rest[0])
  }

  lemma {:induction false} NumberEnds(t: Text, rest: Text)
    requires AllNumberChars(t) && Ends(rest)
    ensures NumberLength(t + rest) == |t|
  {
    if t == [] {
      assert t + rest == rest;
    } else {
      assert (t + rest)[1..] == t[1..] + rest;
      NumberEnds(t[1..], rest);
    }
  }

  lemma {:induction false} DecimalDigits(n: nat)
    ensures var t := Decimal(n);
      Digits(t) && DigitsValue(t) == n && (n > 0 ==> t[0] != 48) && (n < 10 ==> |t| == 1)
  {
    if n >= 10 {
      DecimalDigits(n / 10);
      assert Decimal(n)[..|Decimal(n)| - 1] == Decimal(n / 10);
    }
  }

  lemma IntegerReads(n: int, rest: Text)
    requires Ends(rest)
    ensures ReadValue(Dumps(VInt(n)) + rest) == Some((VInt(n), rest))
  {
    var t := Dumps(VInt(n));
    DecimalDigits(if n < 0 then -n else n);
    assert n < 0 ==> t[1..] == Decimal(-n);
    assert IsInteger(t) && IntegerValue(t) == n;
    NumberEnds(t, rest);
    SplitAt(t, rest);
    assert (t + rest)[0] == t[0];
    NumberStart(t + rest);
  }

  /** A text that starts like a number is read as one. */
  lemma NumberStart(u: Text)
    requires u != [] && (u[0] == 45 || 48 <= u[0] <= 57)
    ensures ReadValue(u) == ReadNumber(u)
  {
    assert SkipSpace(u) == u;
  }

  /** A float is made of the characters of numbers, starts like one and is not an integer. */
  lemma FloatShape(t: Text)
    requires IsFloat(t)
    ensures AllNumberChars(t) && !IsInteger(t) && (t[0] == 45 || 48 <= t[0] <= 57)
  {
    var i, j :| 0 <= i <= j <= |t| && FloatAt(t, i, j);
    FloatPieces(t, i, j);
    FloatParts(t[..i], t[i..j], t[j..]);
  }

  lemma FloatPieces(t: Text, i: nat, j: nat)
    requires i <= j <= |t| && FloatAt(t, i, j)
    ensures t == t[..i] + (t[i..j] + t[j..]) && t[i..j] + t[j..] != []
  {
  }

  lemma FloatParts(a: Text, b: Text, c: Text)
    requires IsInteger(a) && (b == [] || IsFraction(b)) && (c == [] || IsExponent(c)) && b + c != []
    ensures var t := a + (b + c);
      AllNumberChars(t) && !IsInteger(t) && (t[0] == 45 || 48 <= t[0] <= 57)
  {
    var t := a + (b + c);
    IntegerChars(a);
    FractionChars(b);
    ExponentChars(c);
    assert t[0] == a[0];
    assert t[|a|] == if b != [] then b[0] else c[0];
    NotInteger(t, |a|);
  }

  lemma NotInteger(t: Text, i: nat)
    requires 0 < i < |t| && !(48 <= t[i] <= 57)
    ensures !IsInteger(t)
  {
    assert if t[0] == 45 then Unsigned(t)[i - 1] == t[i] else Unsigned(t)[i] == t[i];
  }

  lemma IntegerChars(t: Text)
    requires IsInteger(t)
    ensures AllNumberChars(t) && (t[0] == 45 || 48 <= t[0] <= 57)
  {
    assert t[0] == 45 ==> forall i :: 1 <= i < |t| ==> t[i] == t[1..][i - 1];
  }

  lemma FractionChars(t: Text)
    ensures t == [] || IsFraction(t) ==> AllNumberChars(t)
  {
    assert forall i :: 1 <= i < |t| ==> t[i] == t[1..][i - 1];
  }

  lemma ExponentChars(t: Text)
    ensures t == [] || IsExponent(t) ==> AllNumberChars(t)
  {
    assert forall i :: 1 <= i < |t| ==> t[i] == t[1..][i - 1];
    assert forall i :: 2 <= i < |t| ==> t[i] == t[2..][i - 2];
  }

  lemma FloatReads(token: PlainText, rest: Text)
    requires IsFloat(token) && Ends(rest)
    ensures ReadValue(token + rest) == Some((VFloat(token), rest))
  {
    FloatShape(token);
    NumberEnds(token, rest);
    SplitAt(token, rest);
    assert (token + rest)[0] == token[0];
    NumberStart(token + rest);
  }

  /** A dumped value starts with something that is neither white space nor a closing bracket. */
  lemma DumpsStart(v: Value, rest: Text)
    requires JsonFloats(v)
    ensures Dumps(v) != [] && SkipSpace(Dumps(v) + rest) == Dumps(v) + rest
    ensures Dumps(v)[0] != 93 && Dumps(v)[0] != 125
  {
    assert Dumps(v) != [] ==> (Dumps(v) + rest)[0] == Dumps(v)[0];
    match v
    case VNull => assert Lit("null")[0] == 110;
    case VBool(b) => assert Lit("true")[0] == 116 && Lit("false")[0] == 102;
    case VInt(n) => DecimalDigits(if n < 0 then -n else n);
    case VFloat(token) => FloatShape(token);
    case _ =>
  }

  lemma NameReads(v: Value, rest: Text)
    requires v.VNull? || v.VBool?
    ensures ReadValue(Dumps(v) + rest) == Some((v, rest))
  {
    var t := Dumps(v);
    SplitAt(t, rest);
    assert Lit("null")[0] == 110 && Lit("true")[0] == 116 && Lit("false")[0] == 102;
    assert (t + rest)[0] == t[0];
    DumpsStart(v, rest);
  }

  lemma QuotedReads(s: Text, rest: Text)
    ensures var t := Quoted(s) + rest;
      && t != [] && t[0] == 34 && ReadString(t[1..]) == Some((JoinPairs(s), rest)) && SkipSpace(t) == t
  {
    var t := Quoted(s) + rest;
    Assoc([34] + EscapeAll(s), [34], rest);
    Assoc([34], EscapeAll(s), [34] + rest);
    SplitAt([34], EscapeAll(s) + ([34] + rest));
    StringReads(s, rest);
  }

  /**
   * Whatever the value, if its doubles are written as JSON has them, the dumped text is
   * read as that value, pairs of surrogates joined, and reading ends where it ended.
   */
  lemma {:induction false} ValueReads(v: Value, rest: Text)
    requires JsonFloats(v) && Ends(rest)
    ensures ReadValue(Dumps(v) + rest) == Some((Joined(v), rest))
    decreases v, 2
  {
    match v
    case VNull => NameReads(v, rest);
    case VBool(_) => NameReads(v, rest);
    case VInt(n) => IntegerReads(n, rest);
    case VFloat(token) => FloatReads(token, rest);
    case VStr(s) => QuotedReads(s, rest);
    case VList(items) => ListReads(items, rest);
    case VDict(entries) => DictReads(entries, rest);
  }

  lemma {:induction false} ListReads(items: seq<Value>, rest: Text)
    requires JsonFloats(VList(items)) && Ends(rest)
    ensures ReadValue(Dumps(VList(items)) + rest) == Some((Joined(VList(items)), rest))
    decreases items, 1
  {
    var t, end := Dumps(VList(items)) + rest, [93] + rest;
    Assoc([91] + DumpItems(items), [93], rest);
    Assoc([91], DumpItems(items), end);
    SplitAt([91], DumpItems(items) + end);
    assert t[1..] == DumpItems(items) + end;
    if items == [] {
      assert DumpItems(items) + end == end;
      assert Joined(VList(items)).items == [];
    } else {
      ItemsRead(items, rest);
      ItemsStart(items, end);
    }
  }

  lemma ItemsStart(items: seq<Value>, end: Text)
    requires items != [] && JsonFloats(items[0])
    ensures var t := DumpItems(items) + end;
      t != [] && SkipSpace(t) == t && t[0] != 93
  {
    var more := if |items| == 1 then [] else Lit(", ") + DumpItems(items[1..]);
    DumpsStart(items[0], more + end);
    Assoc(Dumps(items[0]), more, end);
  }

  lemma {:induction false} ItemsRead(items: seq<Value>, rest: Text)
    requires items != [] && forall i :: 0 <= i < |items| ==> JsonFloats(items[i])
    ensures ReadItems(DumpItems(items) + ([93] + rest)) == Some((Joined(VList(items)).items, rest))
    decreases items, 0
  {
    var v, end := items[0], [93] + rest;
    if |items| == 1 {
      assert DumpItems(items) == Dumps(v) + [];
      assert DumpItems(items) + end == Dumps(v) + end;
      ValueReads(v, end);
      assert Joined(VList(items)).items == [Joined(v)];
    } else {
      var more := DumpItems(items[1..]) + end;
      Comma(Dumps(v), DumpItems(items[1..]), end);
      ValueReads(v, Lit(", ") + more);
      ItemsRead(items[1..], rest);
      ItemsSpace(more);
      JoinedItems(items);
    }
  }

  lemma Comma(first: Text, others: Text, end: Text)
    ensures (first + (Lit(", ") + others)) + end == first + (Lit(", ") + (others + end))
    ensures Lit(", ") + (others + end) == [44] + ([32] + (others + end))
    ensures Ends(Lit(", ") + (others + end)) && SkipSpace(Lit(", ") + (others + end)) == Lit(", ") + (others + end)
    ensures ([44] + ([32] + (others + end)))[1..] == [32] + (others + end)
  {
    assert Lit(", ") == [44, 32];
  }

  lemma SpaceFirst(t: Text)
    ensures SkipSpace([32] + t) == SkipSpace(t)
  {
    assert ([32] + t)[1..] == t;
  }

  lemma ValueSpace(t: Text)
    ensures ReadValue([32] + t) == ReadValue(t)
  {
    SpaceFirst(t);
  }

  lemma ItemsSpace(t: Text)
    ensures ReadItems([32] + t) == ReadItems(t)
  {
    ValueSpace(t);
  }

  lemma EntriesSpace(t: Text)
    ensures ReadEntries([32] + t) == ReadEntries(t)
  {
    SpaceFirst(t);
    assert ReadEntry([32] + t) == ReadEntry(t);
  }

  lemma JoinedItems(items: seq<Value>)
    requires items != []
    ensures Joined(VList(items)).items == [Joined(items[0])] + Joined(VList(items[1..])).items
  {
  }

  lemma JoinedEntries(entries: seq<Entry>)
    requires entries != []
    ensures Joined(VDict(entries)).entries ==
            [Entry(JoinPairs(entries[0].key), Joined(entries[0].value))] + Joined(VDict(entries[1..])).entries
  {
  }

  lemma {:induction false} DictReads(entries: seq<Entry>, rest: Text)
    requires JsonFloats(VDict(entries)) && Ends(rest)
    ensures ReadValue(Dumps(VDict(entries)) + rest) == Some((Joined(VDict(entries)), rest))
    decreases entries, 2
  {
    var t, end := Dumps(VDict(entries)) + rest, [125] + rest;
    Assoc([123] + DumpEntries(entries), [125], rest);
    Assoc([123], DumpEntries(entries), end);
    SplitAt([123], DumpEntries(entries) + end);
    assert t == [123] + (DumpEntries(entries) + end);
    if entries == [] {
      assert DumpEntries(entries) + end == end;
      assert Joined(VDict(entries)).entries == [];
      assert t[1..] == end;
    } else {
      EntriesRead(entries, rest);
      EntriesStart(entries, end);
      BraceReads(DumpEntries(entries) + end, Joined(VDict(entries)).entries, rest);
    }
  }

  lemma BraceReads(t: Text, entries: seq<Entry>, rest: Text)
    requires t != [] && t[0] == 34 && ReadEntries(t) == Some((entries, rest))
    ensures ReadValue([123] + t) == Some((VDict(entries), rest))
  {
    assert ([123] + t)[1..] == t;
  }

  lemma EntriesStart(entries: seq<Entry>, end: Text)
    requires entries != []
    ensures var t := DumpEntries(entries) + end;
      t != [] && t[0] == 34
  {
    assert Quoted(entries[0].key)[0] == 34;
  }

  lemma {:induction false} EntryReads(e: Entry, rest: Text)
    requires JsonFloats(e.value) && Ends(rest)
    ensures ReadEntry(DumpEntry(e) + rest) == Some((Entry(JoinPairs(e.key), Joined(e.value)), rest))
    decreases e, 2
  {
    var more := Dumps(e.value) + rest;
    assert DumpEntry(e) + rest == Quoted(e.key) + ([58] + ([32] + more)) by {
      assert Lit(": ") == [58] + [32];
      Assoc(Quoted(e.key) + Lit(": "), Dumps(e.value), rest);
      Assoc(Quoted(e.key), Lit(": "), more);
      Assoc([58], [32], more);
    }
    QuotedReads(e.key, [58] + ([32] + more));
    SplitAt([58], [32] + more);
    ValueSpace(more);
    ValueReads(e.value, rest);
  }

  lemma {:induction false} EntriesRead(entries: seq<Entry>, rest: Text)
    requires entries != [] && forall i :: 0 <= i < |entries| ==> JsonFloats(entries[i].value)
    ensures ReadEntries(DumpEntries(entries) + ([125] + rest)) == Some((Joined(VDict(entries)).entries, rest))
    decreases entries, 1
  {
    var e, end := entries[0], [125] + rest;
    var read := Entry(JoinPairs(e.key), Joined(e.value));
    if |entries| == 1 {
      EntryReads(e, end);
      assert Joined(VDict(entries)).entries == [read];
    } else {
      var more := DumpEntries(entries[1..]) + end;
      Comma(DumpEntry(e), DumpEntries(entries[1..]), end);
      EntryReads(e, Lit(", ") + more);
      EntriesRead(entries[1..], rest);
      EntriesSpace(more);
      JoinedEntries(entries);
    }
  }

  // ----------------------------------------------------------------- main results

  /** What is read has its doubles written as JSON has them. */
  lemma {:induction false} ReadFloats(t: Text)
    ensures ReadValue(t).Some? ==> JsonFloats(ReadValue(t).value.0)
    decreases |t|, 0
  {
    var u := SkipSpace(t);
    if u != [] && (u[0] == 91 || u[0] == 123) {
      var w := SkipSpace(u[1..]);
      ReadItemFloats(w);
      ReadEntryFloats(w);
    }
  }

  lemma {:induction false} ReadItemFloats(t: Text)
    ensures ReadItems(t).Some? ==> JsonFloats(VList(ReadItems(t).value.0))
    decreases |t|, 1
  {
    ReadFloats(t);
    if ReadValue(t).Some? {
      var u := SkipSpace(ReadValue(t).value.1);
      if u != [] {
        ReadItemFloats(u[1..]);
      }
    }
  }

  lemma {:induction false} ReadEntryFloats(t: Text)
    ensures ReadEntries(t).Some? ==> JsonFloats(VDict(ReadEntries(t).value.0))
    decreases |t|, 1
  {
    OneEntryFloats(t);
    if ReadEntry(t).Some? {
      var u := SkipSpace(ReadEntry(t).value.1);
      if u != [] {
        ReadEntryFloats(u[1..]);
      }
    }
  }

  lemma {:induction false} OneEntryFloats(t: Text)
    ensures ReadEntry(t).Some? ==> JsonFloats(ReadEntry(t).value.0.value)
    decreases |t|, 0
  {
    var u := SkipSpace(t);
    if u != [] && u[0] == 34 && ReadString(u[1..]).Some? {
      var w := SkipSpace(ReadString(u[1..]).value.1);
      if w != [] {
        ReadFloats(w[1..]);
      }
    }
  }

  lemma {:induction false} JoinedFloats(v: Value)
    ensures JsonFloats(Joined(v)) <==> JsonFloats(v)
  {
    match v
    case VList(items) =>
      forall i | 0 <= i < |items| ensures JsonFloats(Joined(v).items[i]) <==> JsonFloats(items[i]) {
        JoinedFloats(items[i]);
      }
    case VDict(entries) =>
      forall i | 0 <= i < |entries|
        ensures JsonFloats(Joined(v).entries[i].value) <==> JsonFloats(entries[i].value)
      {
        JoinedFloats(entries[i].value);
      }
    case _ =>
  }

  /**
   * A dumped text is read as its value, pairs of surrogates joined, exactly if every
   * double in it is written as JSON has it.
   */
  lemma TextReadsIff(v: Value)
    ensures ReadText(Dumps(v)) == Some(Joined(v)) <==> JsonFloats(v)
  {
    assert Dumps(v) + [] == Dumps(v);
    if JsonFloats(v) {
      ValueReads(v, []);
    } else {
      ReadFloats(Dumps(v));
      JoinedFloats(v);
    }
  }

  /** And it is read back as the very same value exactly if moreover no string in it has a split pair. */
  lemma TextRoundTripIff(v: Value)
    ensures ReadText(Dumps(v)) == Some(v) <==> JsonFloats(v) && NoSplitPair(v)
  {
    TextReadsIff(v);
    JoinedSame(v);
    ReadFloats(Dumps(v));
  }

  // ----------------------------------------------------------------------- bytes

  predicate Continues(b: Byte) {
    0x80 <= b < 0xC0
  }

  function Bits(b: Byte, n: int): int
    requires n > 0
  {
    b % n
  }

  /** The character that begins the bytes and how many of them it takes, by section 4 of RFC 3629. */
  function ReadUtf8Char(b: seq<Byte>): (r: Option<(CodePoint, nat)>)
    requires b != []
    ensures r.Some? ==> 0 < r.value.1 <= |b|
  {
    if b[0] < 0x80 then Some((b[0], 1))
    else if 0xC2 <= b[0] < 0xE0 && |b| >= 2 && Continues(b[1]) then Some((Bits(b[0], 32) * 64 + Bits(b[1], 64), 2))
    else if 0xE0 <= b[0] < 0xF0 && |b| >= 3 && Continues(b[1]) && Continues(b[2]) then
      var c := Bits(b[0], 16) * 4096 + Bits(b[1], 64) * 64 + Bits(b[2], 64);
      if c < 0x800 || High(c) || Low(c) then None else Some((c, 3))
    else if 0xF0 <= b[0] < 0xF8 && |b| >= 4 && Continues(b[1]) && Continues(b[2]) && Continues(b[3]) then
      var c := Bits(b[0], 8) * 262144 + Bits(b[1], 64) * 4096 + Bits(b[2], 64) * 64 + Bits(b[3], 64);
      if 0x10000 <= c < 0x110000 then Some((c, 4)) else None
    else None
  }

  function ReadUtf8(b: seq<Byte>): Option<Text>
    decreases |b|
  {
    if b == [] then Some([])
    else
      match ReadUtf8Char(b)
      case None => None
      case Some((c, n)) =>
        match ReadUtf8(b[n..])
        case None => None
        case Some(rest) => Some([c] + rest)
  }

  lemma CharRoundTrip(c: CodePoint, rest: seq<Byte>)
    requires !High(c) && !Low(c)
    ensures ReadUtf8Char(Utf8Char(c) + rest) == Some((c, |Utf8Char(c)|))
  {
    var w := Utf8Char(c);
    var b := w + rest;
    assert forall i :: 0 <= i < |w| ==> b[i] == w[i];
    if c < 0x80 {
    } else if c < 0x800 {
      LeadByte(c / 64, 0xC0, 32);
      TailByte(c);
    } else if c < 0x10000 {
      LeadByte(c / 4096, 0xE0, 16);
      TailByte(c / 64);
      TailByte(c);
      Regrouped(c);
    } else {
      LeadByte(c / 262144, 0xF0, 8);
      TailByte(c / 4096);
      TailByte(c / 64);
      TailByte(c);
      Regrouped(c);
    }
  }

  lemma LeadByte(x: nat, mark: nat, n: nat)
    requires x < n && ((mark == 0xC0 && n == 32) || (mark == 0xE0 && n == 16) || (mark == 0xF0 && n == 8))
    ensures (mark + x) % n == x
  {
  }

  lemma TailByte(x: nat)
    ensures 0x80 <= 0x80 + x % 64 < 0xC0 && (0x80 + x % 64) % 64 == x % 64
  {
  }

  lemma Regrouped(c: nat)
    ensures c / 64 * 64 + c % 64 == c
    ensures c / 4096 * 4096 + c / 64 % 64 * 64 + c % 64 == c
    ensures c / 262144 * 262144 + c / 4096 % 64 * 4096 + c / 64 % 64 * 64 + c % 64 == c
  {
    assert c / 64 / 64 == c / 4096 && c / 4096 / 64 == c / 262144;
  }

  /** Every text that has an encoding is read back from it. */
  lemma {:induction false} Utf8RoundTrip(s: Text)
    requires Encodable(s)
    ensures ReadUtf8(Utf8(s)) == Some(s)
  {
    if s != [] {
      CharRoundTrip(s[0], Utf8(s[1..]));
      SplitAt(Utf8Char(s[0]), Utf8(s[1..]));
      Utf8RoundTrip(s[1..]);
      assert s == [s[0]] + s[1..];
    }
  }

  function ReadBytes(b: seq<Byte>): Option<Value> {
    match ReadUtf8(b)
    case None => None
    case Some(t) => ReadText(t)
  }
}
