/**
 * What building a JSON tree from parser events means: the event grammar, the value
 * a document denotes, and the stack machine with its single key register.
 */
module DomSpec {
  import opened JsonValues

  /** Parser and generator events (section 2 of RFC 8259). */
  datatype Ev = Scalar(v: JsonScalar) | StartMap | MapKey(k: string) | EndMap | StartArray | EndArray

  /** A JSON document as written: members in order, keys possibly repeated. */
  datatype Doc = DScalar(v: JsonScalar) | DArr(items: seq<Doc>) | DObj(members: seq<Member>)
  datatype Member = Member(key: string, value: Doc)

  function Events(d: Doc): seq<Ev>
    decreases d, 1
  {
    match d
    case DScalar(v) => [Scalar(v)]
    case DArr(items) => [StartArray] + ItemEvents(items) + [EndArray]
    case DObj(members) => [StartMap] + MemberEvents(members) + [EndMap]
  }

  function ItemEvents(ds: seq<Doc>): seq<Ev>
    decreases ds, 0
  {
    if ds == [] then [] else Events(ds[0]) + ItemEvents(ds[1..])
  }

  function MemberEvents(ms: seq<Member>): seq<Ev>
    decreases ms, 0
  {
    if ms == [] then [] else [MapKey(ms[0].key)] + Events(ms[0].value) + MemberEvents(ms[1..])
  }

  // -------------------------------------------------------------------- meaning

  /** A key as it survives a C string: up to the first NUL. */
  function CStr(k: string): string {
    if k == "" || k[0] == '\0' then "" else [k[0]] + CStr(k[1..])
  }

  function Whole(k: string): string {
    k
  }

  /** The value of a document; of a repeated key the last member counts. */
  function Meaning(key: string -> string, d: Doc): Json
    decreases d, 1
  {
    match d
    case DScalar(v) => v
    case DArr(items) => Arr(ItemValues(key, items))
    case DObj(members) => Obj(MemberValues(key, members, map[]))
  }

  function ItemValues(key: string -> string, ds: seq<Doc>): (vs: seq<Json>)
    ensures |vs| == |ds|
    decreases ds, 0
  {
    if ds == [] then [] else [Meaning(key, ds[0])] + ItemValues(key, ds[1..])
  }

  function MemberValues(key: string -> string, ms: seq<Member>, acc: map<string, Json>): map<string, Json>
    decreases ms, 0
  {
    if ms == [] then acc
    else MemberValues(key, ms[1..], acc[key(ms[0].key) := Meaning(key, ms[0].value)])
  }

  /** The tree the builder makes of a document. */
  function Built(d: Doc): Json {
    Meaning(CStr, d)
  }

  // -------------------------------------------------------------- stack machine

  /** An open container: what it holds so far, and the key it hangs under in its parent. */
  datatype Open =
    | OpenArr(items: seq<Json>, at: string)
    | OpenObj(fields: map<string, Json>, at: string)

  datatype Machine = Machine(frames: seq<Open>, root: Option<Json>, key: string)

  const EMPTY := Machine([], None, "")

  function CloseOpen(o: Open): Json {
    match o
    case OpenArr(items, _) => Arr(items)
    case OpenObj(fields, _) => Obj(fields)
  }

  /** One more value in an open container. */
  function Attach(o: Open, at: string, v: Json): Open {
    match o
    case OpenArr(items, _) => o.(items := items + [v])
    case OpenObj(fields, _) => o.(fields := fields[at := v])
  }

  /** A container opened under an existing key displaces the value there at once. */
  function Displace(o: Open, at: string): Open {
    match o
    case OpenArr(_, _) => o
    case OpenObj(fields, _) => o.(fields := fields - {at})
  }

  function Place(m: Machine, at: string, v: Json): Machine {
    if m.frames == [] then m.(root := Some(v))
    else
      var n := |m.frames| - 1;
      m.(frames := m.frames[n := Attach(m.frames[n], at, v)])
  }

  function AddValue(m: Machine, v: Json): Machine {
    Place(m, CStr(m.key), v)
  }

  function OpenContainer(m: Machine, o: Open): Machine {
    if m.frames == [] then m.(frames := [o])
    else
      var n := |m.frames| - 1;
      m.(frames := m.frames[n := Displace(m.frames[n], o.at)] + [o])
  }

  function CloseContainer(m: Machine): Machine
    requires m.frames != []
  {
    var n := |m.frames| - 1;
    var o := m.frames[n];
    Place(m.(frames := m.frames[..n]), o.at, CloseOpen(o))
  }

  /** Events the parser can send next: no second root, no end without a start. */
  predicate Legal(m: Machine, e: Ev) {
    match e
    case MapKey(_) => true
    case EndMap => m.frames != []
    case EndArray => m.frames != []
    case _ => m.frames != [] || m.root.None?
  }

  function Step(m: Machine, e: Ev): Machine
    requires Legal(m, e)
  {
    match e
    case Scalar(v) => AddValue(m, v)
    case StartMap => OpenContainer(m, OpenObj(map[], CStr(m.key)))
    case StartArray => OpenContainer(m, OpenArr([], CStr(m.key)))
    case MapKey(k) => m.(key := k)
    case EndMap => CloseContainer(m)
    case EndArray => CloseContainer(m)
  }

  /** The machine after the events, as long as each was legal. */
  function Feed(m: Machine, es: seq<Ev>): Option<Machine>
    decreases |es|
  {
    if es == [] then Some(m)
    else if !Legal(m, es[0]) then None
    else Feed(Step(m, es[0]), es[1..])
  }

  lemma {:induction false} FeedConcat(m: Machine, a: seq<Ev>, b: seq<Ev>)
    requires Feed(m, a).Some?
    ensures Feed(m, a + b) == Feed(Feed(m, a).value, b)
    decreases |a|
  {
    if a == [] {
      assert a + b == b;
    } else {
      assert (a + b)[0] == a[0] && (a + b)[1..] == a[1..] + b;
      FeedConcat(Step(m, a[0]), a[1..], b);
    }
  }

  lemma {:induction false} FeedPrefix(m: Machine, a: seq<Ev>, b: seq<Ev>)
    requires Feed(m, a + b).Some?
    ensures Feed(m, a).Some?
    decreases |a|
  {
    if a != [] {
      assert (a + b)[0] == a[0] && (a + b)[1..] == a[1..] + b;
      FeedPrefix(Step(m, a[0]), a[1..], b);
    }
  }

  /** Equal up to what the key register was left at. */
  predicate SameTree(a: Machine, b: Machine) {
    a.frames == b.frames && a.root == b.root
  }

  ghost predicate FeedsTo(m: Machine, es: seq<Ev>, n: Machine) {
    Feed(m, es).Some? && SameTree(Feed(m, es).value, n)
  }

  lemma FeedOne(m: Machine, e: Ev)
    requires Legal(m, e)
    ensures Feed(m, [e]) == Some(Step(m, e))
  {
    assert [e][1..] == [];
  }

  /**
   * Feeding a document's events adds its value where a scalar would have gone, at
   * every depth, although inner maps overwrite the key register: a container is
   * linked to its parent when it opens.
   */
  lemma {:induction false} FeedDoc(m: Machine, d: Doc)
    requires m.frames != [] || m.root.None?
    ensures FeedsTo(m, Events(d), AddValue(m, Built(d)))
    decreases d, 1
  {
    match d
    case DScalar(v) => FeedOne(m, Scalar(v));
    case DArr(items) =>
      var m1 := Step(m, StartArray);
      FeedOne(m, StartArray);
      FeedItems(m1, items);
      assert [] + ItemValues(CStr, items) == ItemValues(CStr, items);
      FeedInner(m, StartArray, ItemEvents(items), EndArray, OpenArr(ItemValues(CStr, items), CStr(m.key)));
    case DObj(members) =>
      var m1 := Step(m, StartMap);
      FeedOne(m, StartMap);
      FeedMembers(m1, members);
      FeedInner(m, StartMap, MemberEvents(members), EndMap, OpenObj(MemberValues(CStr, members, map[]), CStr(m.key)));
  }

  function WithTop(m: Machine, o: Open): Machine
    requires m.frames != []
  {
    m.(frames := m.frames[..|m.frames| - 1] + [o])
  }

  lemma FeedInner(m: Machine, start: Ev, inner: seq<Ev>, end: Ev, o: Open)
    requires m.frames != [] || m.root.None?
    requires (start.StartArray? && end.EndArray? && o.OpenArr?) || (start.StartMap? && end.EndMap? && o.OpenObj?)
    requires o.at == CStr(m.key)
    requires FeedsTo(Step(m, start), inner, WithTop(Step(m, start), o))
    ensures FeedsTo(m, [start] + inner + [end], AddValue(m, CloseOpen(o)))
  {
    var m1 := Step(m, start);
    FeedOne(m, start);
    FeedConcat(m, [start], inner);
    var m2 := Feed(m1, inner).value;
    FeedConcat(m, [start] + inner, [end]);
    FeedOne(m2, end);
    ClosesTo(m, m2, start, o);
  }

  /** Closing puts the container where a scalar would have gone when it opened. */
  lemma ClosesTo(m: Machine, m2: Machine, start: Ev, o: Open)
    requires m.frames != [] || m.root.None?
    requires (start.StartArray? && o.OpenArr?) || (start.StartMap? && o.OpenObj?)
    requires o.at == CStr(m.key)
    requires SameTree(m2, WithTop(Step(m, start), o))
    ensures SameTree(CloseContainer(m2), AddValue(m, CloseOpen(o)))
  {
    var n := |m.frames|;
    assert m2.frames[n] == o;
    if n == 0 {
      assert m2.frames[..0] == m.frames;
    } else {
      var top := m.frames[n - 1];
      assert m2.frames[..n] == m.frames[n - 1 := Displace(top, o.at)];
      assert Attach(Displace(top, o.at), o.at, CloseOpen(o)) == Attach(top, o.at, CloseOpen(o));
    }
  }

  lemma {:induction false} FeedItems(m: Machine, ds: seq<Doc>)
    requires m.frames != [] && m.frames[|m.frames| - 1].OpenArr?
    ensures var top := m.frames[|m.frames| - 1];
      FeedsTo(m, ItemEvents(ds), WithTop(m, top.(items := top.items + ItemValues(CStr, ds))))
    decreases ds, 0
  {
    var n := |m.frames| - 1;
    var top := m.frames[n];
    if ds == [] {
      assert top.items + [] == top.items;
      assert WithTop(m, top).frames == m.frames;
    } else {
      FeedDoc(m, ds[0]);
      var m1 := Feed(m, Events(ds[0])).value;
      FeedConcat(m, Events(ds[0]), ItemEvents(ds[1..]));
      FeedItems(m1, ds[1..]);
      var v := Meaning(CStr, ds[0]);
      assert m1.frames[n] == top.(items := top.items + [v]);
      assert top.items + [v] + ItemValues(CStr, ds[1..]) == top.items + ItemValues(CStr, ds);
      assert m1.frames[..n] == m.frames[..n];
    }
  }

  lemma {:induction false} FeedMembers(m: Machine, ms: seq<Member>)
    requires m.frames != [] && m.frames[|m.frames| - 1].OpenObj?
    ensures var top := m.frames[|m.frames| - 1];
      FeedsTo(m, MemberEvents(ms), WithTop(m, top.(fields := MemberValues(CStr, ms, top.fields))))
    decreases ms, 0
  {
    var n := |m.frames| - 1;
    var top := m.frames[n];
    if ms == [] {
      assert WithTop(m, top).frames == m.frames;
    } else {
      var k, d := ms[0].key, ms[0].value;
      var mk := m.(key := k);
      FeedOne(m, MapKey(k));
      FeedDoc(mk, d);
      FeedConcat(m, [MapKey(k)], Events(d));
      var m1 := Feed(mk, Events(d)).value;
      FeedConcat(m, [MapKey(k)] + Events(d), MemberEvents(ms[1..]));
      FeedMembers(m1, ms[1..]);
      assert m1.frames[n] == top.(fields := top.fields[CStr(k) := Built(d)]);
      assert m1.frames[..n] == m.frames[..n];
    }
  }

  /** Building from the events of a document gives its value, with keys cut at NUL. */
  lemma BuildsDocument(d: Doc)
    ensures FeedsTo(EMPTY, Events(d), Machine([], Some(Built(d)), ""))
  {
    FeedDoc(EMPTY, d);
  }

  // ---------------------------------------------------------------- round trip

  predicate DistinctKeys(ms: seq<Member>) {
    forall i, j :: 0 <= i < j < |ms| ==> ms[i].key != ms[j].key
  }

  function KeysOf(ms: seq<Member>): set<string> {
    set i | 0 <= i < |ms| :: ms[i].key
  }

  /** `d` writes out exactly `j`: each field once, in some order, at every level. */
  ghost predicate Lists(d: Doc, j: Json)
    decreases d
  {
    match d
    case DScalar(v) => v == j
    case DArr(items) =>
      j.Arr? && |items| == |j.items| && forall i :: 0 <= i < |items| ==> Lists(items[i], j.items[i])
    case DObj(ms) =>
      && j.Obj? && DistinctKeys(ms)
      && KeysOf(ms) == j.fields.Keys
      && (forall i :: 0 <= i < |ms| ==> ms[i].key in j.fields && Lists(ms[i].value, j.fields[ms[i].key]))
  }

  predicate NoNul(k: string) {
    '\0' !in k
  }

  ghost predicate NulFree(j: Json)
    decreases j
  {
    match j
    case Arr(items) => forall i :: 0 <= i < |items| ==> NulFree(items[i])
    case Obj(fields) => forall k :: k in fields ==> NoNul(k) && NulFree(fields[k])
    case _ => true
  }

  lemma {:induction false} CStrNoNul(k: string)
    ensures NoNul(CStr(k))
    ensures NoNul(k) ==> CStr(k) == k
  {
    if k != "" && k[0] != '\0' {
      CStrNoNul(k[1..]);
      assert k == [k[0]] + k[1..];
    }
  }

  /** Keys of a built tree never hold a NUL. */
  lemma {:induction false} BuiltNulFree(d: Doc)
    ensures NulFree(Built(d))
    decreases d, 1
  {
    match d
    case DScalar(v) =>
    case DArr(items) =>
      ItemsNulFree(items);
      assert Built(d) == Arr(ItemValues(CStr, items));
    case DObj(ms) =>
      MembersNulFree(ms, map[]);
      assert Built(d) == Obj(MemberValues(CStr, ms, map[]));
  }

  lemma {:induction false} ItemsNulFree(ds: seq<Doc>)
    ensures forall i :: 0 <= i < |ds| ==> NulFree(ItemValues(CStr, ds)[i])
    decreases ds, 0
  {
    if ds != [] {
      BuiltNulFree(ds[0]);
      ItemsNulFree(ds[1..]);
    }
  }

  lemma {:induction false} MembersNulFree(ms: seq<Member>, acc: map<string, Json>)
    requires NulFree(Obj(acc))
    ensures NulFree(Obj(MemberValues(CStr, ms, acc)))
    decreases ms, 0
  {
    if ms != [] {
      BuiltNulFree(ms[0].value);
      CStrNoNul(ms[0].key);
      MembersNulFree(ms[1..], acc[CStr(ms[0].key) := Built(ms[0].value)]);
    }
  }

  /** A map `key` that leaves the keys of `j` alone. */
  ghost predicate Keeps(key: string -> string, j: Json)
    decreases j
  {
    match j
    case Arr(items) => forall i :: 0 <= i < |items| ==> Keeps(key, items[i])
    case Obj(fields) => forall k :: k in fields ==> key(k) == k && Keeps(key, fields[k])
    case _ => true
  }

  /** In whatever order a value is written out, reading it back gives the value. */
  lemma {:induction false} ListedMeaning(key: string -> string, d: Doc, j: Json)
    requires Lists(d, j) && Keeps(key, j)
    ensures Meaning(key, d) == j
    decreases d, 1
  {
    match d
    case DScalar(v) =>
    case DArr(items) => ListedItems(key, items, j.items);
    case DObj(ms) =>
      ListedMembers(key, ms, j.fields, map[]);
      assert map[] + Picked(ms, j.fields) == j.fields;
  }

  lemma {:induction false} ListedItems(key: string -> string, ds: seq<Doc>, js: seq<Json>)
    requires |ds| == |js| && forall i :: 0 <= i < |ds| ==> Lists(ds[i], js[i]) && Keeps(key, js[i])
    ensures ItemValues(key, ds) == js
    decreases ds, 0
  {
    if ds != [] {
      ListedMeaning(key, ds[0], js[0]);
      ListedItems(key, ds[1..], js[1..]);
      assert js == [js[0]] + js[1..];
    }
  }

  function Picked(ms: seq<Member>, fields: map<string, Json>): map<string, Json> {
    map k | k in fields && k in KeysOf(ms) :: fields[k]
  }

  lemma {:induction false} ListedMembers(key: string -> string, ms: seq<Member>,
                                        fields: map<string, Json>, acc: map<string, Json>)
    requires forall i :: 0 <= i < |ms| ==> ms[i].key in fields && Lists(ms[i].value, fields[ms[i].key])
    requires forall k :: k in fields ==> key(k) == k && Keeps(key, fields[k])
    ensures MemberValues(key, ms, acc) == acc + Picked(ms, fields)
    decreases ms, 0
  {
    if ms == [] {
      assert Picked(ms, fields) == map[];
    } else {
      var k0, t := ms[0].key, ms[1..];
      ListedMeaning(key, ms[0].value, fields[k0]);
      ListedMembers(key, t, fields, acc[k0 := fields[k0]]);
      PickedCons(ms, fields, acc);
    }
  }

  lemma PickedCons(ms: seq<Member>, fields: map<string, Json>, acc: map<string, Json>)
    requires ms != [] && ms[0].key in fields
    ensures acc[ms[0].key := fields[ms[0].key]] + Picked(ms[1..], fields) == acc + Picked(ms, fields)
  {
    KeysCons(ms);
  }

  lemma KeysCons(ms: seq<Member>)
    requires ms != []
    ensures KeysOf(ms) == {ms[0].key} + KeysOf(ms[1..])
  {
    assert forall i :: 0 <= i < |ms| - 1 ==> ms[1..][i] == ms[i + 1];
    forall k | k in KeysOf(ms) ensures k in {ms[0].key} + KeysOf(ms[1..]) {
      var i :| 0 <= i < |ms| && ms[i].key == k;
      if i > 0 {
        assert ms[1..][i - 1].key == k;
      }
    }
  }

  lemma {:induction false} NulFreeKept(j: Json)
    requires NulFree(j)
    ensures Keeps(CStr, j)
    decreases j
  {
    match j
    case Arr(items) =>
      forall i | 0 <= i < |items| ensures Keeps(CStr, items[i]) { NulFreeKept(items[i]); }
    case Obj(fields) =>
      forall k | k in fields ensures CStr(k) == k && Keeps(CStr, fields[k]) {
        CStrNoNul(k);
        NulFreeKept(fields[k]);
      }
    case _ =>
  }

  lemma {:induction false} WholeKept(j: Json)
    ensures Keeps(Whole, j)
    decreases j
  {
    match j
    case Arr(items) =>
      forall i | 0 <= i < |items| ensures Keeps(Whole, items[i]) { WholeKept(items[i]); }
    case Obj(fields) =>
      forall k | k in fields ensures Keeps(Whole, fields[k]) { WholeKept(fields[k]); }
    case _ =>
  }

  /**
   * Round trip at event level: a value written out in any order of its fields is
   * built back equal if and only if no key in it, at any depth, holds a NUL.  The
   * text itself always denotes the value.
   */
  lemma RoundTripIff(d: Doc, j: Json)
    requires Lists(d, j)
    ensures Meaning(Whole, d) == j
    ensures FeedsTo(EMPTY, Events(d), Machine([], Some(j), "")) <==> NulFree(j)
    ensures Built(d) == j <==> NulFree(j)
  {
    WholeKept(j);
    ListedMeaning(Whole, d, j);
    BuildsDocument(d);
    BuiltNulFree(d);
    if NulFree(j) {
      NulFreeKept(j);
      ListedMeaning(CStr, d, j);
    }
  }

  /** An object with two fields that a NUL keeps apart is built back with one. */
  lemma NulKeysCollide(v: JsonScalar, w: JsonScalar)
    ensures var j := Obj(map["a" := v, "a\0b" := w]);
      var d := DObj([Member("a", DScalar(v)), Member("a\0b", DScalar(w))]);
      && Lists(d, j) && Built(d) == Obj(map["a" := w]) && Built(d) != j
  {
    var ms := [Member("a", DScalar(v)), Member("a\0b", DScalar(w))];
    assert "a\0b"[1..] == "\0b" && "a"[1..] == "";
    assert CStr("a\0b") == "a" && CStr("a") == "a";
    assert ms[1..] == [ms[1]] && ms[1..][1..] == [];
    assert Meaning(CStr, DScalar(v)) == v && Meaning(CStr, DScalar(w)) == w;
    var one: map<string, Json> := map[]["a" := v];
    assert MemberValues(CStr, ms, map[]) == MemberValues(CStr, ms[1..], one);
    assert MemberValues(CStr, ms[1..], one) == MemberValues(CStr, ms[1..][1..], one["a" := w]);
    assert MemberValues(CStr, [], one["a" := w]) == one["a" := w];
    assert KeysOf(ms) == {ms[0].key, ms[1].key};
    assert "a\0b" in map["a" := v, "a\0b" := w];
  }
}
