/** JSON nodes on the heap, and the ghost trees that say how they are linked. */
module DomTree {
  import opened JsonValues
  import opened DomSpec

  /** The `type` and `data` of a node. */
  datatype Data =
    | ScalarData(v: JsonScalar)
    | ArrayData(items: seq<JsonNode>)
    | MapData(entries: map<string, JsonNode>)

  class JsonNode {
    var data: Data
    var live: bool

    constructor (data: Data)
      ensures this.data == data && live
    {
      this.data := data;
      live := true;
    }

    /** free(): a node is freed only while it is live. */
    method Release()
      requires live
      modifies this
      ensures !live
    {
      live := false;
    }
  }

  /** The array is zero-terminated: one past the end reads as null. */
  function ItemAt(items: seq<JsonNode>, i: nat): JsonNode?
    requires i <= |items|
  {
    if i < |items| then items[i] else null
  }

  // ---------------------------------------------------------------- sequences

  ghost function Pos(keys: seq<string>, k: string): (i: nat)
    requires k in keys
    ensures i < |keys| && keys[i] == k
  {
    var i :| 0 <= i < |keys| && keys[i] == k;
    i
  }

  ghost predicate Different<T>(xs: seq<T>) {
    forall i, j :: 0 <= i < j < |xs| ==> xs[i] != xs[j]
  }

  /** The map that sends each key to the value at its position. */
  ghost function Zip<T>(keys: seq<string>, vals: seq<T>): map<string, T>
    requires |keys| == |vals|
  {
    map k | k in keys :: vals[Pos(keys, k)]
  }

  function RemoveAt<T>(xs: seq<T>, i: nat): seq<T>
    requires i < |xs|
  {
    xs[..i] + xs[i + 1..]
  }

  lemma ZipAt<T>(keys: seq<string>, vals: seq<T>, i: nat)
    requires |keys| == |vals| && Different(keys) && i < |keys|
    ensures keys[i] in Zip(keys, vals) && Zip(keys, vals)[keys[i]] == vals[i]
  {
    assert keys[i] in keys;
    assert Pos(keys, keys[i]) == i;
  }

  lemma ZipSnoc<T>(keys: seq<string>, vals: seq<T>, k: string, v: T)
    requires |keys| == |vals| && Different(keys) && k !in keys
    ensures Different(keys + [k])
    ensures Zip(keys + [k], vals + [v]) == Zip(keys, vals)[k := v]
  {
    var ks, vs := keys + [k], vals + [v];
    forall l | l in ks ensures Zip(ks, vs)[l] == Zip(keys, vals)[k := v][l] {
      ZipAt(ks, vs, Pos(ks, l));
      if l != k {
        assert ks[Pos(keys, l)] == l;
      }
    }
    assert forall l :: l in ks <==> l in keys || l == k;
  }

  lemma ZipRemove<T>(keys: seq<string>, vals: seq<T>, i: nat)
    requires |keys| == |vals| && Different(keys) && i < |keys|
    ensures Different(RemoveAt(keys, i))
    ensures Zip(RemoveAt(keys, i), RemoveAt(vals, i)) == Zip(keys, vals) - {keys[i]}
    ensures keys[i] !in RemoveAt(keys, i)
  {
    var ks, vs := RemoveAt(keys, i), RemoveAt(vals, i);
    assert forall q :: 0 <= q < |ks| ==>
        ks[q] == keys[if q < i then q else q + 1] && vs[q] == vals[if q < i then q else q + 1];
    forall l | l in ks ensures l in keys && l != keys[i] && Zip(ks, vs)[l] == Zip(keys, vals)[l] {
      var q := Pos(ks, l);
      ZipAt(keys, vals, if q < i then q else q + 1);
    }
    RemainingKeys(keys, i);
  }

  lemma RemainingKeys(keys: seq<string>, i: nat)
    requires i < |keys|
    ensures forall l :: l in keys && l != keys[i] ==> l in RemoveAt(keys, i)
  {
    forall l | l in keys && l != keys[i] ensures l in RemoveAt(keys, i) {
      var p := Pos(keys, l);
      assert RemoveAt(keys, i)[if p < i then p else p - 1] == l;
    }
  }

  // ----------------------------------------------------------------- ghost trees

  /** The entries of a map are listed in some order: `keys[i]` leads to `kids[i]`. */
  datatype Tree =
    | Leaf(node: JsonNode, v: JsonScalar)
    | ArrTree(node: JsonNode, kids: seq<Tree>)
    | MapTree(node: JsonNode, keys: seq<string>, kids: seq<Tree>)

  ghost function Refs(t: Tree): set<JsonNode>
    decreases t, 1
  {
    {t.node} + if t.Leaf? then {} else KidsRefs(t.kids)
  }

  ghost function KidsRefs(kids: seq<Tree>): set<JsonNode>
    decreases kids, 0
  {
    set i, n | 0 <= i < |kids| && n in Refs(kids[i]) :: n
  }

  /** No node occurs twice, and no key. */
  ghost predicate Wf(t: Tree)
    decreases t, 1
  {
    && (!t.Leaf? ==> t.node !in KidsRefs(t.kids) && KidsWf(t.kids))
    && (t.MapTree? ==> |t.keys| == |t.kids| && Different(t.keys))
  }

  ghost predicate KidsWf(kids: seq<Tree>)
    decreases kids, 0
  {
    && (forall i :: 0 <= i < |kids| ==> Wf(kids[i]))
    && (forall i, j :: 0 <= i < j < |kids| ==> Refs(kids[i]) !! Refs(kids[j]))
  }

  ghost function Nodes(kids: seq<Tree>): (ns: seq<JsonNode>)
    ensures |ns| == |kids| && forall i :: 0 <= i < |ns| ==> ns[i] == kids[i].node
  {
    seq(|kids|, i requires 0 <= i < |kids| => kids[i].node)
  }

  /** The node data that links the tree's children. */
  ghost function Shape(t: Tree): Data
    requires t.MapTree? ==> |t.keys| == |t.kids|
  {
    match t
    case Leaf(_, v) => ScalarData(v)
    case ArrTree(_, kids) => ArrayData(Nodes(kids))
    case MapTree(_, keys, kids) => MapData(Zip(keys, Nodes(kids)))
  }

  /** The heap holds the tree: every node of it is live and linked as the tree says. */
  ghost predicate Holds(t: Tree)
    reads Refs(t)
    decreases t, 1
  {
    && t.node.live
    && (t.MapTree? ==> |t.keys| == |t.kids|)
    && t.node.data == Shape(t)
    && (!t.Leaf? ==> KidsHold(t.kids))
  }

  ghost predicate KidsHold(kids: seq<Tree>)
    reads KidsRefs(kids)
    decreases kids, 0
  {
    forall i :: 0 <= i < |kids| ==> Holds(kids[i])
  }

  /** The JSON value of a tree. */
  ghost function Value(t: Tree): Json
    requires Wf(t)
    decreases t, 1
  {
    match t
    case Leaf(_, v) => v
    case ArrTree(_, kids) => Arr(Values(kids))
    case MapTree(_, keys, kids) => Obj(Zip(keys, Values(kids)))
  }

  ghost function Values(kids: seq<Tree>): (vs: seq<Json>)
    requires KidsWf(kids)
    ensures |vs| == |kids|
    decreases kids, 0
  {
    seq(|kids|, i requires 0 <= i < |kids| => Value(kids[i]))
  }

  ghost predicate AllDead(ns: set<JsonNode>)
    reads ns
  {
    forall n :: n in ns ==> !n.live
  }

  // ---------------------------------------------------------- taking trees apart

  lemma KidRefs(kids: seq<Tree>, i: nat)
    requires i < |kids|
    ensures Refs(kids[i]) <= KidsRefs(kids)
  {
  }

  lemma RemoveRefs(kids: seq<Tree>, i: nat)
    requires i < |kids|
    ensures KidsRefs(kids) == Refs(kids[i]) + KidsRefs(RemoveAt(kids, i))
  {
    var r := RemoveAt(kids, i);
    KidRefs(kids, i);
    forall p | 0 <= p < |kids| ensures Refs(kids[p]) <= Refs(kids[i]) + KidsRefs(r) {
      if p != i {
        KidRefs(r, if p < i then p else p - 1);
      }
    }
    forall q | 0 <= q < |r| ensures Refs(r[q]) <= KidsRefs(kids) {
      KidRefs(kids, if q < i then q else q + 1);
    }
  }

  lemma RemoveWf(kids: seq<Tree>, i: nat)
    requires i < |kids| && KidsWf(kids)
    ensures KidsWf(RemoveAt(kids, i)) && Refs(kids[i]) !! KidsRefs(RemoveAt(kids, i))
  {
    var r := RemoveAt(kids, i);
    assert forall q :: 0 <= q < |r| ==> r[q] == kids[if q < i then q else q + 1];
  }

  lemma RemoveHolds(kids: seq<Tree>, i: nat)
    requires i < |kids| && KidsHold(kids)
    ensures KidsHold(RemoveAt(kids, i)) && Holds(kids[i])
  {
    var r := RemoveAt(kids, i);
    assert forall q :: 0 <= q < |r| ==> r[q] == kids[if q < i then q else q + 1];
  }

  lemma SnocRefs(kids: seq<Tree>, c: Tree)
    ensures KidsRefs(kids + [c]) == KidsRefs(kids) + Refs(c)
  {
    RemoveRefs(kids + [c], |kids|);
    assert RemoveAt(kids + [c], |kids|) == kids;
  }

  lemma SnocWf(kids: seq<Tree>, c: Tree)
    requires KidsWf(kids) && Wf(c) && KidsRefs(kids) !! Refs(c)
    ensures KidsWf(kids + [c])
  {
    var u := kids + [c];
    forall i, j | 0 <= i < j < |u| ensures Refs(u[i]) !! Refs(u[j]) {
      if j == |kids| {
        KidRefs(kids, i);
      }
    }
  }

  // --------------------------------------------------------- growing a container

  /** Where in the map the key is, if it is there. */
  predicate Occupied(t: Tree, at: string) {
    t.MapTree? && at in t.keys && |t.keys| == |t.kids|
  }

  /** One more child: at the end of an array, under a new key of a map. */
  ghost function Add(t: Tree, at: string, c: Tree): Tree
    requires !t.Leaf?
  {
    match t
    case ArrTree(n, kids) => ArrTree(n, kids + [c])
    case MapTree(n, keys, kids) => MapTree(n, keys + [at], kids + [c])
  }

  /** Without the child that a new one under `at` displaces. */
  ghost function Without(t: Tree, at: string): Tree
    requires !t.Leaf?
  {
    if Occupied(t, at) then
      var i := Pos(t.keys, at);
      MapTree(t.node, RemoveAt(t.keys, i), RemoveAt(t.kids, i))
    else t
  }

  /** The child a new one under `at` displaces. */
  ghost function Displaced(t: Tree, at: string): Tree
    requires Occupied(t, at)
  {
    t.kids[Pos(t.keys, at)]
  }

  function Link(d: Data, at: string, n: JsonNode): Data
    requires !d.ScalarData?
  {
    match d
    case ArrayData(items) => ArrayData(items + [n])
    case MapData(entries) => MapData(entries[at := n])
  }

  lemma WithoutRefs(t: Tree, at: string)
    requires !t.Leaf? && Wf(t)
    ensures KidsRefs(Without(t, at).kids) <= KidsRefs(t.kids)
    ensures Occupied(t, at) ==>
      && KidsRefs(t.kids) == Refs(Displaced(t, at)) + KidsRefs(Without(t, at).kids)
      && Refs(Displaced(t, at)) !! KidsRefs(Without(t, at).kids)
      && Wf(Displaced(t, at))
    ensures Wf(Without(t, at)) && !Occupied(Without(t, at), at)
  {
    if Occupied(t, at) {
      var i := Pos(t.keys, at);
      RemoveRefs(t.kids, i);
      RemoveWf(t.kids, i);
      ZipRemove(t.keys, t.kids, i);
    }
  }

  lemma WithoutHolds(t: Tree, at: string)
    requires !t.Leaf? && KidsHold(t.kids)
    ensures KidsHold(Without(t, at).kids)
    ensures Occupied(t, at) ==> Holds(Displaced(t, at))
  {
    if Occupied(t, at) {
      RemoveHolds(t.kids, Pos(t.keys, at));
    }
  }

  lemma AddRefs(t: Tree, at: string, c: Tree)
    requires !t.Leaf?
    ensures Refs(Add(t, at, c)) == Refs(t) + Refs(c)
  {
    SnocRefs(t.kids, c);
  }

  lemma AddWf(t: Tree, at: string, c: Tree)
    requires !t.Leaf? && Wf(t) && !Occupied(t, at) && Wf(c) && Refs(t) !! Refs(c)
    ensures Wf(Add(t, at, c))
  {
    SnocRefs(t.kids, c);
    SnocWf(t.kids, c);
    if t.MapTree? {
      ZipSnoc(t.keys, t.kids, at, c);
    }
  }

  lemma AddShape(t: Tree, at: string, c: Tree)
    requires !t.Leaf? && Wf(t) && !Occupied(t, at)
    ensures var u := Add(t, at, c);
      (u.MapTree? ==> |u.keys| == |u.kids|) && Shape(u) == Link(Shape(t), at, c.node)
  {
    match t
    case ArrTree(_, kids) => assert Nodes(kids + [c]) == Nodes(kids) + [c.node];
    case MapTree(_, keys, kids) =>
      assert Nodes(kids + [c]) == Nodes(kids) + [c.node];
      ZipSnoc(keys, Nodes(kids), at, c.node);
  }

  /** Linking over a displaced child leaves the same data as linking without it. */
  lemma LinkWithout(t: Tree, at: string, n: JsonNode)
    requires !t.Leaf? && Wf(t) && Wf(Without(t, at))
    ensures Link(Shape(t), at, n) == Link(Shape(Without(t, at)), at, n)
  {
    if Occupied(t, at) {
      var i := Pos(t.keys, at);
      assert Nodes(RemoveAt(t.kids, i)) == RemoveAt(Nodes(t.kids), i);
      ZipRemove(t.keys, Nodes(t.kids), i);
    }
  }

  // -------------------------------------------------------------------- disposal

  /**
   * JsonNode_free: walks the tree and frees every node of it exactly once; no other
   * node changes.
   */
  method Free(node: JsonNode, ghost t: Tree)
    requires t.node == node && Wf(t) && Holds(t)
    modifies Refs(t)
    ensures AllDead(Refs(t))
    decreases t, 1
  {
    match node.data {
      case ScalarData(_) =>
        assert Refs(t) == {node};
      case ArrayData(items) =>
        FreeItems(items, t.kids);
      case MapData(entries) =>
        FreeEntries(entries, t.keys, t.kids);
    }
    assert !t.Leaf? ==> AllDead(KidsRefs(t.kids));
    node.Release();
    assert !t.Leaf? ==> AllDead(KidsRefs(t.kids));
  }

  /** Frees one of several disjoint trees; the others stay. */
  method FreeChild(child: JsonNode, ghost rest: seq<Tree>, ghost i: nat, ghost dead: set<JsonNode>)
    returns (ghost dead': set<JsonNode>)
    requires i < |rest| && child == rest[i].node && KidsWf(rest) && KidsHold(rest)
    requires dead !! KidsRefs(rest) && AllDead(dead)
    modifies Refs(rest[i])
    ensures dead' + KidsRefs(RemoveAt(rest, i)) == dead + KidsRefs(rest)
    ensures dead' !! KidsRefs(RemoveAt(rest, i)) && AllDead(dead')
    ensures KidsWf(RemoveAt(rest, i)) && KidsHold(RemoveAt(rest, i))
    decreases rest[i], 2
  {
    ghost var t, others := rest[i], RemoveAt(rest, i);
    Apart(rest, i);
    assert allocated(KidsRefs(others));
    Free(child, t);
    dead' := dead + Refs(t);
  }

  lemma Apart(rest: seq<Tree>, i: nat)
    requires i < |rest| && KidsWf(rest) && KidsHold(rest)
    ensures var others := RemoveAt(rest, i);
      && KidsRefs(rest) == Refs(rest[i]) + KidsRefs(others)
      && Refs(rest[i]) !! KidsRefs(others)
      && KidsWf(others) && KidsHold(others)
      && Wf(rest[i]) && Holds(rest[i])
  {
    RemoveRefs(rest, i);
    RemoveWf(rest, i);
    RemoveHolds(rest, i);
  }

  /** The array part of JsonNode_free: up to the null at the end. */
  method FreeItems(items: seq<JsonNode>, ghost kids: seq<Tree>)
    requires KidsWf(kids) && KidsHold(kids) && items == Nodes(kids)
    modifies KidsRefs(kids)
    ensures AllDead(KidsRefs(kids))
    decreases kids, 0
  {
    var i := 0;
    ghost var rest, dead: set<JsonNode> := kids, {};
    while true
      invariant 0 <= i <= |items| && rest == kids[i..]
      invariant dead + KidsRefs(rest) == KidsRefs(kids) && dead !! KidsRefs(rest)
      invariant AllDead(dead)
      invariant KidsWf(rest) && KidsHold(rest)
      decreases |items| - i
    {
      var child := ItemAt(items, i);
      if child == null {
        NoKids(rest);
        break;
      }
      assert rest[0] == kids[i] && RemoveAt(rest, 0) == kids[i + 1..];
      dead := FreeChild(child, rest, 0, dead);
      rest := kids[i + 1..];
      i := i + 1;
    }
  }

  lemma NoKids(kids: seq<Tree>)
    requires kids == []
    ensures KidsRefs(kids) == {}
  {
  }

  /** g_hash_table_remove_all: the entries in whatever order the table has them. */
  method FreeEntries(entries: map<string, JsonNode>, ghost keys: seq<string>, ghost kids: seq<Tree>)
    requires KidsWf(kids) && KidsHold(kids)
    requires |keys| == |kids| && Different(keys) && entries == Zip(keys, Nodes(kids))
    modifies KidsRefs(kids)
    ensures AllDead(KidsRefs(kids))
    decreases kids, 0
  {
    var left := entries;
    ghost var leftKeys, rest, dead: set<JsonNode> := keys, kids, {};
    while left != map[]
      invariant Listing(left, leftKeys, rest, kids)
      invariant dead + KidsRefs(rest) == KidsRefs(kids) && dead !! KidsRefs(rest)
      invariant AllDead(dead)
      invariant KidsWf(rest) && KidsHold(rest)
      decreases |left|
    {
      var k :| k in left;
      ghost var i := Pos(leftKeys, k);
      ListingDrop(left, leftKeys, rest, kids, k);
      dead := FreeChild(left[k], rest, i, dead);
      rest, leftKeys := RemoveAt(rest, i), RemoveAt(leftKeys, i);
      left := left - {k};
    }
    ZipEmpty(leftKeys, rest);
    NoKids(rest);
  }

  lemma MapShrinks(m: map<string, JsonNode>, k: string)
    requires k in m
    ensures |m - {k}| < |m| && (m - {k}).Keys == m.Keys - {k}
  {
    assert (m - {k}).Keys == m.Keys - {k};
  }

  /** `keys` and `rest` list the entries left, all of them from `kids`. */
  ghost predicate Listing(left: map<string, JsonNode>, keys: seq<string>, rest: seq<Tree>, kids: seq<Tree>) {
    && |keys| == |rest| && Different(keys) && left == Zip(keys, Nodes(rest))
    && forall c :: c in rest ==> c in kids
  }

  lemma ListingDrop(left: map<string, JsonNode>, keys: seq<string>, rest: seq<Tree>, kids: seq<Tree>, k: string)
    requires Listing(left, keys, rest, kids) && k in left
    ensures |left - {k}| < |left| && k in keys
    ensures var i := Pos(keys, k);
      && left[k] == rest[i].node && (kids decreases to rest[i])
      && Listing(left - {k}, RemoveAt(keys, i), RemoveAt(rest, i), kids)
  {
    var i := Pos(keys, k);
    ZipRemove(keys, Nodes(rest), i);
    NodesRemove(rest, i);
    MapShrinks(left, k);
    assert rest[i] in rest;
  }

  lemma NodesRemove(kids: seq<Tree>, i: nat)
    requires i < |kids|
    ensures Nodes(RemoveAt(kids, i)) == RemoveAt(Nodes(kids), i)
    ensures forall c :: c in RemoveAt(kids, i) ==> c in kids
  {
  }

  lemma ZipEmpty(keys: seq<string>, kids: seq<Tree>)
    requires |keys| == |kids| && Different(keys) && Zip(keys, Nodes(kids)) == map[]
    ensures kids == []
  {
    if kids != [] {
      ZipAt(keys, Nodes(kids), 0);
    }
  }

  // ------------------------------------------------------------------ generation

  lemma {:induction false} ItemEventsSnoc(ds: seq<Doc>, d: Doc)
    ensures ItemEvents(ds + [d]) == ItemEvents(ds) + Events(d)
  {
    if ds == [] {
      assert [d][1..] == [];
      assert ItemEvents([d]) == Events(d) + [];
    } else {
      assert (ds + [d])[1..] == ds[1..] + [d];
      ItemEventsSnoc(ds[1..], d);
    }
  }

  lemma {:induction false} MemberEventsSnoc(ms: seq<Member>, m: Member)
    ensures MemberEvents(ms + [m]) == MemberEvents(ms) + ([MapKey(m.key)] + Events(m.value))
  {
    if ms == [] {
      assert [m][1..] == [];
      assert MemberEvents([m]) == [MapKey(m.key)] + Events(m.value) + [];
    } else {
      assert (ms + [m])[1..] == ms[1..] + [m];
      MemberEventsSnoc(ms[1..], m);
    }
  }

  /** Keys are C strings. */
  ghost predicate Printable(t: Tree)
    decreases t, 1
  {
    match t
    case Leaf(_, _) => true
    case ArrTree(_, kids) => KidsPrintable(kids)
    case MapTree(_, keys, kids) => KidsPrintable(kids) && forall i :: 0 <= i < |keys| ==> NoNul(keys[i])
  }

  ghost predicate KidsPrintable(kids: seq<Tree>)
    decreases kids, 0
  {
    forall i :: 0 <= i < |kids| ==> Printable(kids[i])
  }

  lemma {:induction false} PrintableIff(t: Tree)
    requires Wf(t)
    ensures Printable(t) <==> NulFree(Value(t))
    decreases t, 1
  {
    match t
    case Leaf(_, _) =>
    case ArrTree(_, kids) =>
      KidsPrintableIff(kids);
      assert Value(t) == Arr(Values(kids));
    case MapTree(_, keys, kids) =>
      KidsPrintableIff(kids);
      ZipNulFree(keys, Values(kids));
      assert Value(t) == Obj(Zip(keys, Values(kids)));
  }

  lemma {:induction false} KidsPrintableIff(kids: seq<Tree>)
    requires KidsWf(kids)
    ensures KidsPrintable(kids) <==> NulFree(Arr(Values(kids)))
    decreases kids, 0
  {
    forall i | 0 <= i < |kids| ensures Printable(kids[i]) <==> NulFree(Values(kids)[i]) {
      PrintableIff(kids[i]);
    }
  }

  lemma ZipNulFree(keys: seq<string>, vals: seq<Json>)
    requires |keys| == |vals| && Different(keys)
    ensures NulFree(Obj(Zip(keys, vals))) <==> NulFree(Arr(vals)) && forall i :: 0 <= i < |keys| ==> NoNul(keys[i])
  {
    var m := Zip(keys, vals);
    forall i | 0 <= i < |keys| ensures keys[i] in m && m[keys[i]] == vals[i] {
      ZipAt(keys, vals, i);
    }
    assert forall k :: k in m ==> keys[Pos(keys, k)] == k;
  }

  /** The events are those of some document that lists exactly this value. */
  ghost predicate Writes(es: seq<Ev>, j: Json) {
    exists d :: es == Events(d) && Lists(d, j)
  }

  /**
   * jdGenerator_generate_node: the events written are those of a document that lists
   * exactly the value of the tree, whatever order the hash tables give.
   */
  method Generate(node: JsonNode, ghost t: Tree) returns (es: seq<Ev>, ghost d: Doc)
    requires t.node == node && Wf(t) && Holds(t) && Printable(t)
    ensures Writes(es, Value(t)) && es == Events(d) && Lists(d, Value(t))
    decreases t, 1
  {
    match node.data {
      case ScalarData(v) =>
        es, d := [Scalar(v)], DScalar(v);
      case ArrayData(items) =>
        ghost var ds;
        es, ds := GenerateItems(items, t.kids);
        es, d := [StartArray] + es + [EndArray], DArr(ds);
      case MapData(entries) =>
        ghost var ms;
        es, ms := GenerateEntries(entries, t.keys, t.kids);
        es, d := [StartMap] + es + [EndMap], DObj(ms);
        ListsObject(ms, t.keys, Values(t.kids));
    }
    assert es == Events(d) && Lists(d, Value(t));
  }

  lemma KidParts(kids: seq<Tree>, i: nat)
    requires i < |kids| && KidsWf(kids) && KidsHold(kids) && KidsPrintable(kids)
    ensures Wf(kids[i]) && Holds(kids[i]) && Printable(kids[i])
    ensures Values(kids)[i] == Value(kids[i])
  {
  }

  /** The documents write out the first values. */
  ghost predicate ListsItems(ds: seq<Doc>, vals: seq<Json>) {
    |ds| <= |vals| && forall i :: 0 <= i < |ds| ==> Lists(ds[i], vals[i])
  }

  method GenerateItems(items: seq<JsonNode>, ghost kids: seq<Tree>) returns (es: seq<Ev>, ghost ds: seq<Doc>)
    requires KidsWf(kids) && KidsHold(kids) && KidsPrintable(kids) && items == Nodes(kids)
    ensures es == ItemEvents(ds) && |ds| == |kids| && ListsItems(ds, Values(kids))
    decreases kids, 0
  {
    es, ds := [], [];
    var i := 0;
    assert allocated(KidsRefs(kids));
    while true
      invariant KidsHold(kids)
      invariant 0 <= i <= |items| && |ds| == i
      invariant es == ItemEvents(ds) && ListsItems(ds, Values(kids))
      decreases |items| - i
    {
      var value := ItemAt(items, i);
      if value == null {
        break;
      }
      var part;
      ghost var d;
      KidParts(kids, i);
      part, d := Generate(value, kids[i]);
      ItemEventsSnoc(ds, d);
      es, ds := es + part, ds + [d];
      i := i + 1;
    }
  }

  /** Member m writes out the entry of the map under its key. */
  ghost predicate ListsEntry(m: Member, keys: seq<string>, vals: seq<Json>)
    requires |keys| == |vals|
  {
    m.key in keys && Lists(m.value, vals[Pos(keys, m.key)])
  }

  ghost predicate ListsEntries(ms: seq<Member>, keys: seq<string>, vals: seq<Json>)
    requires |keys| == |vals|
  {
    DistinctKeys(ms) && forall i :: 0 <= i < |ms| ==> ListsEntry(ms[i], keys, vals)
  }

  lemma ListsObject(ms: seq<Member>, keys: seq<string>, vals: seq<Json>)
    requires |keys| == |vals| && ListsEntries(ms, keys, vals) && KeysOf(ms) == Zip(keys, vals).Keys
    ensures Lists(DObj(ms), Obj(Zip(keys, vals)))
  {
    forall i | 0 <= i < |ms| ensures ms[i].key in Zip(keys, vals) && Lists(ms[i].value, Zip(keys, vals)[ms[i].key]) {
      assert ListsEntry(ms[i], keys, vals);
    }
  }

  lemma AddEntry(ms: seq<Member>, m: Member, keys: seq<string>, vals: seq<Json>)
    requires |keys| == |vals| && ListsEntries(ms, keys, vals) && ListsEntry(m, keys, vals) && m.key !in KeysOf(ms)
    ensures ListsEntries(ms + [m], keys, vals)
    ensures KeysOf(ms + [m]) == KeysOf(ms) + {m.key}
    ensures MemberEvents(ms + [m]) == MemberEvents(ms) + ([MapKey(m.key)] + Events(m.value))
  {
    KeysSnoc(ms, m);
    MemberEventsSnoc(ms, m);
  }

  method GenerateEntries(entries: map<string, JsonNode>, ghost keys: seq<string>, ghost kids: seq<Tree>)
    returns (es: seq<Ev>, ghost ms: seq<Member>)
    requires KidsWf(kids) && KidsHold(kids) && KidsPrintable(kids)
    requires |keys| == |kids| && Different(keys) && entries == Zip(keys, Nodes(kids))
    requires forall i :: 0 <= i < |keys| ==> NoNul(keys[i])
    ensures es == MemberEvents(ms) && KeysOf(ms) == entries.Keys && ListsEntries(ms, keys, Values(kids))
    decreases kids, 0
  {
    es, ms := [], [];
    var left := entries;
    assert allocated(KidsRefs(kids));
    while left != map[]
      invariant KidsHold(kids)
      invariant Unwritten(left, entries, ms)
      invariant es == MemberEvents(ms) && ListsEntries(ms, keys, Values(kids))
      decreases |left|
    {
      var key :| key in left;
      var part;
      ghost var d;
      part, d := GenerateEntry(key, left[key], keys, kids);
      TakeEntry(left, entries, ms, Member(key, d), keys, Values(kids));
      es, ms := es + part, ms + [Member(key, d)];
      left := left - {key};
    }
  }

  /** The entries that no member has been written for. */
  ghost predicate Unwritten(left: map<string, JsonNode>, entries: map<string, JsonNode>, ms: seq<Member>) {
    && left.Keys <= entries.Keys
    && (forall k :: k in left ==> left[k] == entries[k])
    && KeysOf(ms) == entries.Keys - left.Keys
  }

  lemma TakeEntry(left: map<string, JsonNode>, entries: map<string, JsonNode>, ms: seq<Member>, m: Member,
                  keys: seq<string>, vals: seq<Json>)
    requires Unwritten(left, entries, ms) && m.key in left
    requires |keys| == |vals| && ListsEntries(ms, keys, vals) && ListsEntry(m, keys, vals)
    ensures Unwritten(left - {m.key}, entries, ms + [m]) && |left - {m.key}| < |left|
    ensures ListsEntries(ms + [m], keys, vals)
    ensures MemberEvents(ms + [m]) == MemberEvents(ms) + ([MapKey(m.key)] + Events(m.value))
  {
    AddEntry(ms, m, keys, vals);
    MapShrinks(left, m.key);
  }

  method GenerateEntry(key: string, value: JsonNode, ghost keys: seq<string>, ghost kids: seq<Tree>)
    returns (es: seq<Ev>, ghost d: Doc)
    requires KidsWf(kids) && KidsHold(kids) && KidsPrintable(kids)
    requires |keys| == |kids| && key in keys && NoNul(key) && value == kids[Pos(keys, key)].node
    ensures es == [MapKey(key)] + Events(d) && ListsEntry(Member(key, d), keys, Values(kids))
    ensures KidsHold(kids)
    decreases kids, 0, 0
  {
    ghost var p := Pos(keys, key);
    CStrNoNul(key);
    KidParts(kids, p);
    assert allocated(KidsRefs(kids));
    var part;
    part, d := Generate(value, kids[p]);
    es := [MapKey(CStr(key))] + part;
  }

  lemma KeysSnoc(ms: seq<Member>, m: Member)
    ensures KeysOf(ms + [m]) == KeysOf(ms) + {m.key}
    ensures m.key !in KeysOf(ms) && DistinctKeys(ms) ==> DistinctKeys(ms + [m])
  {
    var all := ms + [m];
    assert all[|ms|] == m;
    forall k | k in KeysOf(ms) ensures k in KeysOf(all) {
      var i :| 0 <= i < |ms| && ms[i].key == k;
      assert all[i] == ms[i];
    }
    forall i | 0 <= i < |ms| ensures ms[i].key in KeysOf(ms) {
    }
  }
}
