/**
 * The DOM builder: parser callbacks grow a tree on the heap through a stack of its
 * open containers and one key register.
 */
module DomBuilder {
  import opened JsonValues
  import opened DomSpec
  import opened DomTree
  import opened Sequences

  /** An open container: its closed children, and the key it hangs under in its parent. */
  datatype Frame = Frame(tree: Tree, at: string)

  /** The child a container is linked to beyond its closed ones. */
  datatype Hook = Hook(at: string, node: JsonNode)

  function Last<T>(xs: seq<T>): T
    requires xs != []
  {
    xs[|xs| - 1]
  }

  function Init<T>(xs: seq<T>): seq<T>
    requires xs != []
  {
    xs[..|xs| - 1]
  }

  ghost function FramesRefs(fs: seq<Frame>): set<JsonNode> {
    if fs == [] then {} else FramesRefs(Init(fs)) + Refs(Last(fs).tree)
  }

  ghost predicate FrameOk(f: Frame, next: Option<Hook>)
    reads Refs(f.tree)
  {
    var t := f.tree;
    && !t.Leaf? && Wf(t) && t.node.live && KidsHold(t.kids)
    && match next
       case None => t.node.data == Shape(t)
       case Some(h) => !Occupied(t, h.at) && t.node.data == Link(Shape(t), h.at, h.node)
  }

  ghost function HookOf(f: Frame): Option<Hook> {
    Some(Hook(f.at, f.tree.node))
  }

  /** The open containers form a path: each is linked to the next, all parts apart. */
  ghost predicate Spine(fs: seq<Frame>, next: Option<Hook>)
    reads FramesRefs(fs)
  {
    fs == [] ||
    (&& FrameOk(Last(fs), next)
     && Spine(Init(fs), HookOf(Last(fs)))
     && Refs(Last(fs).tree) !! FramesRefs(Init(fs)))
  }

  /** Head first; while a container root is open it is on the stack twice. */
  ghost function Reversed(fs: seq<Frame>): seq<JsonNode> {
    if fs == [] then [] else [Last(fs).tree.node] + Reversed(Init(fs))
  }

  ghost function StackOf(fs: seq<Frame>, root: Option<Tree>): seq<JsonNode> {
    if fs != [] then Reversed(fs) + [fs[0].tree.node]
    else if root.Some? then [root.value.node]
    else []
  }

  ghost function RootRefs(root: Option<Tree>): set<JsonNode> {
    if root.Some? then Refs(root.value) else {}
  }

  // ------------------------------------------------------------- abstract value

  ghost function OpenOf(f: Frame): Open
    requires Wf(f.tree)
  {
    match f.tree
    case MapTree(_, keys, kids) => OpenObj(Zip(keys, Values(kids)), f.at)
    case ArrTree(_, kids) => OpenArr(Values(kids), f.at)
    case Leaf(_, _) => OpenArr([], f.at)
  }

  ghost predicate FramesWf(fs: seq<Frame>) {
    forall i :: 0 <= i < |fs| ==> Wf(fs[i].tree)
  }

  ghost function OpenFrames(fs: seq<Frame>): (os: seq<Open>)
    requires FramesWf(fs)
    ensures |os| == |fs| && forall i :: 0 <= i < |fs| ==> os[i] == OpenOf(fs[i])
  {
    seq(|fs|, i requires 0 <= i < |fs| => OpenOf(fs[i]))
  }

  lemma SpineWf(fs: seq<Frame>, next: Option<Hook>)
    requires Spine(fs, next)
    ensures FramesWf(fs)
  {
    if fs != [] {
      SpineWf(Init(fs), HookOf(Last(fs)));
      assert forall i :: 0 <= i < |fs| - 1 ==> Init(fs)[i] == fs[i];
    }
  }

  lemma ValuesSnoc(kids: seq<Tree>, c: Tree)
    requires KidsWf(kids) && KidsWf(kids + [c]) && Wf(c)
    ensures Values(kids + [c]) == Values(kids) + [Value(c)]
  {
    assert (kids + [c])[|kids|] == c;
  }

  lemma ValuesRemove(kids: seq<Tree>, i: nat)
    requires i < |kids| && KidsWf(kids) && KidsWf(RemoveAt(kids, i))
    ensures Values(RemoveAt(kids, i)) == RemoveAt(Values(kids), i)
  {
    var r := RemoveAt(kids, i);
    forall q | 0 <= q < |r| ensures Values(r)[q] == RemoveAt(Values(kids), i)[q] {
      assert r[q] == kids[if q < i then q else q + 1];
    }
  }

  /** Adding a child to the tree attaches its value to the open container. */
  lemma OpenAdd(f: Frame, at: string, c: Tree)
    requires !f.tree.Leaf? && Wf(f.tree) && !Occupied(f.tree, at) && Wf(c) && Wf(Add(f.tree, at, c))
    ensures OpenOf(Frame(Add(f.tree, at, c), f.at)) == Attach(OpenOf(f), at, Value(c))
  {
    ValuesSnoc(f.tree.kids, c);
    if f.tree.MapTree? {
      ZipSnoc(f.tree.keys, Values(f.tree.kids), at, Value(c));
    }
  }

  lemma OpenWithout(f: Frame, at: string)
    requires !f.tree.Leaf? && Wf(f.tree) && Wf(Without(f.tree, at))
    ensures OpenOf(Frame(Without(f.tree, at), f.at)) == Displace(OpenOf(f), at)
  {
    var t := f.tree;
    if Occupied(t, at) {
      var i := Pos(t.keys, at);
      ValuesRemove(t.kids, i);
      ZipRemove(t.keys, Values(t.kids), i);
    } else if t.MapTree? {
      assert Zip(t.keys, Values(t.kids)) - {at} == Zip(t.keys, Values(t.kids));
    }
  }

  lemma AttachDisplaced(o: Open, at: string, v: Json)
    ensures Attach(Displace(o, at), at, v) == Attach(o, at, v)
  {
  }

  // ----------------------------------------------------------- heap operations

  method ArrayAppend(parent: JsonNode, node: JsonNode)
    requires parent.data.ArrayData?
    modifies parent
    ensures parent.data == ArrayData(old(parent.data.items) + [node]) && parent.live == old(parent.live)
  {
    parent.data := ArrayData(parent.data.items + [node]);
  }

  /** JsonNode_map_insert: a value already under the key is disposed of. */
  method MapInsert(parent: JsonNode, key: string, node: JsonNode, ghost t: Tree)
    requires t.MapTree? && Wf(t) && t.node == parent && parent.live && KidsHold(t.kids) && parent.data == Shape(t)
    modifies parent, KidsRefs(t.kids) - KidsRefs(Without(t, key).kids)
    ensures parent.data == Link(Shape(t), key, node) && parent.live
    ensures AllDead(KidsRefs(t.kids) - KidsRefs(Without(t, key).kids))
    ensures KidsHold(Without(t, key).kids)
  {
    var entries := parent.data.entries;
    WithoutRefs(t, key);
    WithoutHolds(t, key);
    ghost var stay := Without(t, key).kids;
    assert allocated(KidsRefs(stay));
    parent.data := MapData(entries[key := node]);
    if key in entries {
      ghost var gone := Displaced(t, key);
      assert allocated(Refs(gone));
      assert Refs(gone) == KidsRefs(t.kids) - KidsRefs(stay);
      assert Holds(gone) by { WithoutHolds(t, key); }
      Free(entries[key], gone);
    } else {
      assert stay == t.kids;
    }
  }

  /** Links a node into an open container: appended to an array, under a key of a map. */
  method PutChild(head: JsonNode, key: string, node: JsonNode, ghost t: Tree)
    requires !t.Leaf? && Wf(t) && t.node == head && head.live && KidsHold(t.kids) && head.data == Shape(t)
    modifies head, KidsRefs(t.kids) - KidsRefs(Without(t, key).kids)
    ensures head.data == Link(Shape(t), key, node) && head.live
    ensures AllDead(KidsRefs(t.kids) - KidsRefs(Without(t, key).kids))
    ensures KidsHold(Without(t, key).kids)
  {
    match head.data {
      case ArrayData(_) =>
        assert allocated(KidsRefs(t.kids));
        ArrayAppend(head, node);
      case MapData(_) => MapInsert(head, key, node, t);
    }
  }

  /** The open container with one more child, closed for now. */
  ghost function Grown(f: Frame, at: string, c: Tree): Frame
    requires !f.tree.Leaf?
  {
    Frame(Add(Without(f.tree, at), at, c), f.at)
  }

  /** A node that nothing is linked to yet. */
  ghost predicate NewNode(c: Tree)
    reads Refs(c)
  {
    Wf(c) && Holds(c) && Refs(c) == {c.node}
  }

  lemma GrownOk(f: Frame, at: string, c: Tree)
    requires !f.tree.Leaf? && Wf(f.tree) && NewNode(c) && c.node !in Refs(f.tree)
    requires f.tree.node.live && f.tree.node.data == Link(Shape(f.tree), at, c.node)
    requires KidsHold(Without(f.tree, at).kids)
    ensures FrameOk(Grown(f, at, c), None)
    ensures Refs(Grown(f, at, c).tree) == {f.tree.node} + KidsRefs(Without(f.tree, at).kids) + {c.node}
  {
    var u := Without(f.tree, at);
    WithoutRefs(f.tree, at);
    AddRefs(u, at, c);
    AddWf(u, at, c);
    AddShape(u, at, c);
    LinkWithout(f.tree, at, c.node);
    SnocHolds(u.kids, c);
  }

  lemma GrownOpen(f: Frame, at: string, c: Tree)
    requires !f.tree.Leaf? && Wf(f.tree) && Wf(c) && c.node !in Refs(f.tree) && Refs(c) == {c.node}
    ensures Wf(Grown(f, at, c).tree)
    ensures OpenOf(Grown(f, at, c)) == Attach(OpenOf(f), at, Value(c))
  {
    var u := Without(f.tree, at);
    WithoutRefs(f.tree, at);
    AddWf(u, at, c);
    OpenAdd(Frame(u, f.at), at, c);
    OpenWithout(f, at);
    AttachDisplaced(OpenOf(f), at, Value(c));
  }

  // ------------------------------------------------------------ closing the top

  /** The parent frame once its open child is closed. */
  ghost function Absorb(parent: Frame, child: Frame): Frame
    requires !parent.tree.Leaf?
  {
    Frame(Add(parent.tree, child.at, child.tree), parent.at)
  }

  /** The frames once the top one is closed; the heap does not change. */
  ghost function CloseTop(fs: seq<Frame>): seq<Frame>
    requires |fs| >= 2 && !Last(Init(fs)).tree.Leaf?
  {
    var below := Init(fs);
    Init(below) + [Absorb(Last(below), Last(fs))]
  }

  lemma AbsorbOk(parent: Frame, child: Frame, next: Option<Hook>)
    requires FrameOk(parent, HookOf(child)) && FrameOk(child, None)
    requires Refs(parent.tree) !! Refs(child.tree) && next.None?
    ensures FrameOk(Absorb(parent, child), next)
    ensures Refs(Absorb(parent, child).tree) == Refs(parent.tree) + Refs(child.tree)
  {
    var t, c := parent.tree, child.tree;
    AddRefs(t, child.at, c);
    AddWf(t, child.at, c);
    AddShape(t, child.at, c);
    SnocHolds(t.kids, c);
  }

  lemma SnocHolds(kids: seq<Tree>, c: Tree)
    requires KidsHold(kids) && Holds(c)
    ensures KidsHold(kids + [c])
  {
  }

  lemma SplitFrames(fs: seq<Frame>, f: Frame)
    ensures Init(fs + [f]) == fs && Last(fs + [f]) == f
    ensures FramesRefs(fs + [f]) == FramesRefs(fs) + Refs(f.tree)
    ensures Reversed(fs + [f]) == [f.tree.node] + Reversed(fs)
  {
  }

  lemma CloseTopOk(fs: seq<Frame>)
    requires |fs| >= 2 && Spine(fs, None)
    ensures !Last(Init(fs)).tree.Leaf? && !Last(fs).tree.Leaf?
    ensures !Occupied(Last(Init(fs)).tree, Last(fs).at)
    ensures Spine(CloseTop(fs), None) && FramesRefs(CloseTop(fs)) == FramesRefs(fs)
    ensures Reversed(CloseTop(fs)) == Reversed(fs)[1..]
    ensures CloseTop(fs)[0].tree.node == fs[0].tree.node
  {
    var below, top := Init(fs), Last(fs);
    var base, parent := Init(below), Last(below);
    AbsorbOk(parent, top, None);
    SplitFrames(base, Absorb(parent, top));
  }

  lemma {:induction false} ReversedRefs(fs: seq<Frame>)
    ensures forall n :: n in Reversed(fs) ==> n in FramesRefs(fs)
    ensures fs != [] ==> fs[0].tree.node in FramesRefs(fs)
  {
    if fs != [] {
      ReversedRefs(Init(fs));
    }
  }

  /** All open containers closed into one tree, top first. */
  ghost function Closed(fs: seq<Frame>): Tree
    requires fs != [] && forall i :: 0 <= i < |fs| ==> !fs[i].tree.Leaf?
    decreases |fs|
  {
    if |fs| == 1 then fs[0].tree else Closed(CloseTop(fs))
  }

  lemma NoLeaves(fs: seq<Frame>, next: Option<Hook>)
    requires Spine(fs, next)
    ensures forall i :: 0 <= i < |fs| ==> !fs[i].tree.Leaf?
  {
    if fs != [] {
      NoLeaves(Init(fs), HookOf(Last(fs)));
      assert forall i :: 0 <= i < |fs| - 1 ==> Init(fs)[i] == fs[i];
    }
  }

  /** Whatever is open, the root reaches everything: closing is only a matter of view. */
  lemma {:induction false} ClosedHolds(fs: seq<Frame>)
    requires fs != [] && Spine(fs, None)
    requires forall i :: 0 <= i < |fs| ==> !fs[i].tree.Leaf?
    ensures Wf(Closed(fs)) && Holds(Closed(fs))
    ensures Refs(Closed(fs)) == FramesRefs(fs) && Closed(fs).node == fs[0].tree.node
    decreases |fs|
  {
    if |fs| == 1 {
      assert Init(fs) == [];
    } else {
      CloseTopOk(fs);
      ClosedHolds(CloseTop(fs));
    }
  }

  // ------------------------------------------------------------- linking a child

  ghost predicate Alive(made: set<JsonNode>, reach: set<JsonNode>)
    reads made
  {
    reach <= made && forall n :: n in made ==> (n.live <==> n in reach)
  }

  /** The top container with one more closed child. */
  ghost function Extended(fs: seq<Frame>, at: string, c: Tree): seq<Frame>
    requires fs != [] && !Last(fs).tree.Leaf?
  {
    Init(fs) + [Grown(Last(fs), at, c)]
  }

  lemma ExtendedStack(fs: seq<Frame>, at: string, c: Tree)
    requires fs != [] && !Last(fs).tree.Leaf?
    ensures StackOf(Extended(fs, at, c), None) == StackOf(fs, None)
    ensures Last(Extended(fs, at, c)) == Grown(Last(fs), at, c) && Init(Extended(fs, at, c)) == Init(fs)
    ensures FramesRefs(Extended(fs, at, c)) == FramesRefs(Init(fs)) + Refs(Grown(Last(fs), at, c).tree)
  {
    SplitFrames(Init(fs), Grown(Last(fs), at, c));
  }

  ghost predicate ViewWf(fs: seq<Frame>, root: Option<Tree>) {
    FramesWf(fs) && (root.Some? ==> Wf(root.value))
  }

  ghost function View(fs: seq<Frame>, root: Option<Tree>, key: string): Machine
    requires ViewWf(fs, root)
  {
    Machine(OpenFrames(fs), if root.Some? then Some(Value(root.value)) else None, key)
  }

  /**
   * Of all nodes ever made exactly the reachable ones are live; the stack is the
   * path of open containers with the root once more at its bottom.
   */
  ghost predicate Consistent(stack: seq<JsonNode>, fs: seq<Frame>, root: Option<Tree>, made: set<JsonNode>)
    reads made, FramesRefs(fs), RootRefs(root)
  {
    && Alive(made, FramesRefs(fs) + RootRefs(root))
    && Spine(fs, None)
    && (root.Some? ==> fs == [] && Holds(root.value))
    && stack == StackOf(fs, root)
    && ViewWf(fs, root)
  }

  /**
   * Links a node below the top container; of the nodes made so far exactly those
   * still reachable stay live.
   */
  method LinkTop(stack: seq<JsonNode>, key: string, node: JsonNode,
                 ghost fs: seq<Frame>, ghost made: set<JsonNode>, ghost c: Tree)
    requires fs != [] && Consistent(stack, fs, None, made)
    requires c.node == node && NewNode(c) && node !in made
    modifies made
    ensures !Last(fs).tree.Leaf? && NewNode(c)
    ensures Consistent(stack, Extended(fs, key, c), None, made + {node})
  {
    ghost var below, top := Init(fs), Last(fs);
    ghost var gone := Gone(top.tree, key);
    ExtendedRefs(fs, key, c);
    assert allocated(FramesRefs(below)) && allocated(Refs(c)) && allocated(made);
    PutChild(stack[0], key, node, top.tree);
    GrownOk(top, key, c);
    assert Spine(below, HookOf(top));
    ghost var reach, now := FramesRefs(fs), FramesRefs(Extended(fs, key, c));
    assert now == reach - gone + {node};
    forall n | n in made ensures n.live <==> n in now {
      assert n in gone ==> !n.live;
      assert n !in gone && n != top.tree.node ==> n.live == old(n.live);
    }
    LinkedTop(stack, fs, key, c, made);
  }

  lemma LinkedTop(stack: seq<JsonNode>, fs: seq<Frame>, at: string, c: Tree, made: set<JsonNode>)
    requires fs != [] && !Last(fs).tree.Leaf? && FramesWf(fs) && stack == StackOf(fs, None)
    requires FrameOk(Grown(Last(fs), at, c), None) && Spine(Init(fs), HookOf(Last(fs)))
    requires Refs(Grown(Last(fs), at, c).tree) !! FramesRefs(Init(fs))
    requires Alive(made + {c.node}, FramesRefs(Extended(fs, at, c)))
    ensures Consistent(stack, Extended(fs, at, c), None, made + {c.node})
  {
    ExtendedStack(fs, at, c);
    ViewSnoc(Init(fs), Grown(Last(fs), at, c));
  }

  /** The nodes of the child that a new one under `at` displaces. */
  ghost function Gone(t: Tree, at: string): set<JsonNode>
    requires !t.Leaf?
  {
    KidsRefs(t.kids) - KidsRefs(Without(t, at).kids)
  }

  lemma ExtendedRefs(fs: seq<Frame>, at: string, c: Tree)
    requires fs != [] && !Last(fs).tree.Leaf? && Wf(Last(fs).tree)
    requires Refs(Last(fs).tree) !! FramesRefs(Init(fs)) && Refs(c) == {c.node} && c.node !in FramesRefs(fs)
    ensures Gone(Last(fs).tree, at) <= FramesRefs(fs) && Last(fs).tree.node !in Gone(Last(fs).tree, at)
    ensures Gone(Last(fs).tree, at) !! FramesRefs(Init(fs))
    ensures FramesRefs(Extended(fs, at, c)) == FramesRefs(fs) - Gone(Last(fs).tree, at) + {c.node}
    ensures Last(Extended(fs, at, c)) == Grown(Last(fs), at, c) && Init(Extended(fs, at, c)) == Init(fs)
    ensures Refs(Last(Extended(fs, at, c)).tree) !! FramesRefs(Init(fs))
  {
    ExtendedStack(fs, at, c);
    WithoutRefs(Last(fs).tree, at);
    AddRefs(Without(Last(fs).tree, at), at, c);
  }

  lemma FirstNode(fs: seq<Frame>, root: Option<Tree>, made: set<JsonNode>, c: Tree)
    requires Consistent([], fs, root, made) && NewNode(c)
    ensures fs == [] && root.None? && Consistent([c.node], [], Some(c), made + {c.node})
  {
  }

  // ------------------------------------------------------------ opening the top

  ghost predicate Bare(c: Tree) {
    !c.Leaf? && c.kids == [] && (c.MapTree? ==> c.keys == [])
  }

  lemma BareNode(c: Tree)
    requires Bare(c) && c.node.live && c.node.data == if c.ArrTree? then ArrayData([]) else MapData(map[])
    ensures NewNode(c)
  {
    assert Nodes(c.kids) == [];
    if c.MapTree? {
      assert Zip(c.keys, Nodes(c.kids)) == map[];
    }
  }

  /** The last child of the top container, linked but now open itself. */
  ghost function Opened(fs: seq<Frame>, at: string, c: Tree): seq<Frame>
    requires fs != [] && !Last(fs).tree.Leaf?
  {
    var top := Last(fs);
    Init(fs) + [Frame(Without(top.tree, at), top.at)] + [Frame(c, at)]
  }

  lemma OpenedOk(fs: seq<Frame>, at: string, c: Tree)
    requires fs != [] && !Last(fs).tree.Leaf? && Wf(Last(fs).tree)
    requires Bare(c) && NewNode(c) && c.node !in Refs(Last(fs).tree)
    requires Spine(Extended(fs, at, c), None)
    ensures Spine(Opened(fs, at, c), None)
    ensures FramesRefs(Opened(fs, at, c)) == FramesRefs(Extended(fs, at, c))
    ensures StackOf(Opened(fs, at, c), None) == [c.node] + StackOf(fs, None)
  {
    ExtendedStack(fs, at, c);
    OpenedRefs(fs, at, c);
    OpenedFrames(Last(fs), at, c);
    var below, u := Init(fs), Frame(Without(Last(fs).tree, at), Last(fs).at);
    OpenedStack(fs, at, c);
    assert Spine(below, HookOf(u)) && Refs(u.tree) !! FramesRefs(below);
    assert Spine(below + [u], HookOf(Frame(c, at))) by { SplitFrames(below, u); }
  }

  lemma OpenedRefs(fs: seq<Frame>, at: string, c: Tree)
    requires fs != [] && !Last(fs).tree.Leaf? && Wf(Last(fs).tree) && Refs(c) == {c.node}
    ensures FramesRefs(Opened(fs, at, c)) == FramesRefs(Extended(fs, at, c))
    ensures Last(Opened(fs, at, c)) == Frame(c, at)
    ensures Init(Opened(fs, at, c)) == Init(fs) + [Frame(Without(Last(fs).tree, at), Last(fs).at)]
    ensures Refs(Grown(Last(fs), at, c).tree) == Refs(Without(Last(fs).tree, at)) + {c.node}
    ensures Refs(Without(Last(fs).tree, at)) <= Refs(Last(fs).tree)
  {
    var below, u, f := Init(fs), Frame(Without(Last(fs).tree, at), Last(fs).at), Frame(c, at);
    ExtendedStack(fs, at, c);
    WithoutRefs(Last(fs).tree, at);
    AddRefs(u.tree, at, c);
    SplitFrames(below, u);
    SplitFrames(below + [u], f);
  }

  /** Opening keeps the bottom of the stack and everything above it but the new head. */
  lemma StackSplit(below: seq<Frame>, top: Frame, u: Frame, f: Frame)
    requires u.tree.node == top.tree.node
    ensures StackOf(below + [u] + [f], None) == [f.tree.node] + StackOf(below + [top], None)
  {
    SplitFrames(below, top);
    SplitFrames(below, u);
    SplitFrames(below + [u], f);
    var bottom := [(below + [top])[0].tree.node];
    assert (below + [u] + [f])[0].tree.node == bottom[0];
    Assoc([f.tree.node], Reversed(below + [u]), bottom);
  }

  lemma OpenedStack(fs: seq<Frame>, at: string, c: Tree)
    requires fs != [] && !Last(fs).tree.Leaf?
    ensures StackOf(Opened(fs, at, c), None) == [c.node] + StackOf(fs, None)
  {
    assert fs == Init(fs) + [Last(fs)];
    StackSplit(Init(fs), Last(fs), Frame(Without(Last(fs).tree, at), Last(fs).at), Frame(c, at));
  }

  lemma OpenedFrames(top: Frame, at: string, c: Tree)
    requires !top.tree.Leaf? && Wf(top.tree) && Bare(c) && NewNode(c) && FrameOk(Grown(top, at, c), None)
    ensures FrameOk(Frame(Without(top.tree, at), top.at), Some(Hook(at, c.node))) && FrameOk(Frame(c, at), None)
  {
    var u := Without(top.tree, at);
    WithoutRefs(top.tree, at);
    AddShape(u, at, c);
    SnocInit(u.kids, c);
  }

  lemma SnocInit(kids: seq<Tree>, c: Tree)
    requires KidsHold(kids + [c])
    ensures KidsHold(kids)
  {
    forall i | 0 <= i < |kids| ensures Holds(kids[i]) {
      assert (kids + [c])[i] == kids[i];
    }
  }

  lemma ConsistentOpened(stack: seq<JsonNode>, fs: seq<Frame>, at: string, c: Tree, made: set<JsonNode>)
    requires fs != [] && !Last(fs).tree.Leaf? && Wf(Last(fs).tree) && FramesWf(fs)
    requires Bare(c) && NewNode(c) && c.node !in Refs(Last(fs).tree)
    requires Consistent(stack, Extended(fs, at, c), None, made)
    ensures Consistent([c.node] + stack, Opened(fs, at, c), None, made)
  {
    OpenedOk(fs, at, c);
    ExtendedStack(fs, at, c);
    SpineWf(Opened(fs, at, c), None);
  }

  lemma ConsistentOpenedRoot(stack: seq<JsonNode>, at: string, c: Tree, made: set<JsonNode>)
    requires Bare(c) && Consistent(stack, [], Some(c), made)
    ensures Consistent([c.node] + stack, [Frame(c, at)], None, made)
  {
    SplitFrames([], Frame(c, at));
  }

  lemma ConsistentClosed(stack: seq<JsonNode>, fs: seq<Frame>, made: set<JsonNode>)
    requires |fs| >= 2 && Consistent(stack, fs, None, made)
    ensures !Last(Init(fs)).tree.Leaf? && !Last(fs).tree.Leaf?
    ensures !Occupied(Last(Init(fs)).tree, Last(fs).at)
    ensures Consistent(stack[1..], CloseTop(fs), None, made)
  {
    CloseTopOk(fs);
    SpineWf(CloseTop(fs), None);
  }

  lemma ConsistentClosedRoot(stack: seq<JsonNode>, f: Frame, made: set<JsonNode>)
    requires Consistent(stack, [f], None, made)
    ensures !f.tree.Leaf? && Consistent(stack[1..], [], Some(f.tree), made)
  {
    SplitFrames([], f);
  }

  // ---------------------------------------------- what the steps mean as values

  lemma ViewSnoc(fs: seq<Frame>, f: Frame)
    requires FramesWf(fs) && Wf(f.tree)
    ensures FramesWf(fs + [f]) && OpenFrames(fs + [f]) == OpenFrames(fs) + [OpenOf(f)]
  {
  }

  lemma ViewExtended(fs: seq<Frame>, key: string, c: Tree)
    requires fs != [] && FramesWf(fs) && !Last(fs).tree.Leaf?
    requires Wf(c) && Refs(c) == {c.node} && c.node !in Refs(Last(fs).tree)
    ensures FramesWf(Extended(fs, CStr(key), c))
    ensures View(Extended(fs, CStr(key), c), None, key) == DomSpec.AddValue(View(fs, None, key), Value(c))
  {
    GrownOpen(Last(fs), CStr(key), c);
    ViewSnoc(Init(fs), Grown(Last(fs), CStr(key), c));
    ViewSnoc(Init(fs), Last(fs));
    assert fs == Init(fs) + [Last(fs)];
  }

  lemma ViewOpened(fs: seq<Frame>, key: string, c: Tree)
    requires fs != [] && FramesWf(fs) && !Last(fs).tree.Leaf? && Bare(c) && Wf(c)
    ensures FramesWf(Opened(fs, CStr(key), c))
    ensures View(Opened(fs, CStr(key), c), None, key) == OpenContainer(View(fs, None, key), OpenOf(Frame(c, CStr(key))))
  {
    var at, top := CStr(key), Last(fs);
    var u := Frame(Without(top.tree, at), top.at);
    WithoutRefs(top.tree, at);
    OpenWithout(top, at);
    ViewSnoc(Init(fs), top);
    assert fs == Init(fs) + [top];
    ViewSnoc(Init(fs), u);
    ViewSnoc(Init(fs) + [u], Frame(c, at));
  }

  lemma ViewClosed(fs: seq<Frame>, key: string)
    requires |fs| >= 2 && FramesWf(fs) && !Last(Init(fs)).tree.Leaf? && FramesWf(CloseTop(fs))
    requires !Last(fs).tree.Leaf? && !Occupied(Last(Init(fs)).tree, Last(fs).at)
    ensures View(CloseTop(fs), None, key) == CloseContainer(View(fs, None, key))
  {
    var base, parent, top := Init(Init(fs)), Last(Init(fs)), Last(fs);
    assert Last(CloseTop(fs)) == Absorb(parent, top);
    OpenAdd(parent, top.at, top.tree);
    assert fs == base + [parent] + [top];
    ViewSnoc(base, parent);
    ViewSnoc(base + [parent], top);
    ViewSnoc(base, Absorb(parent, top));
  }

  lemma ViewClosedRoot(f: Frame, key: string)
    requires Wf(f.tree) && !f.tree.Leaf?
    ensures View([], Some(f.tree), key) == CloseContainer(View([f], None, key))
  {
  }

  ghost function StartFrames(fs: seq<Frame>, at: string, c: Tree): seq<Frame>
    requires fs != [] ==> !Last(fs).tree.Leaf?
  {
    if fs == [] then [Frame(c, at)] else Opened(fs, at, c)
  }

  lemma StartOk(stack: seq<JsonNode>, fs: seq<Frame>, grown: seq<Frame>, root: Option<Tree>, c: Tree,
                made: set<JsonNode>, key: string)
    requires FramesWf(fs) && (fs != [] ==> !Last(fs).tree.Leaf?) && c.node !in FramesRefs(fs)
    requires if fs == [] then grown == [] && root == Some(c) else grown == Extended(fs, CStr(key), c) && root.None?
    requires Bare(c) && NewNode(c) && Consistent(stack, grown, root, made)
    ensures Consistent([c.node] + stack, StartFrames(fs, CStr(key), c), None, made)
  {
    if fs == [] {
      ConsistentOpenedRoot(stack, CStr(key), c, made);
    } else {
      ConsistentOpened(stack, fs, CStr(key), c, made);
    }
  }

  lemma ViewStarted(fs: seq<Frame>, key: string, c: Tree)
    requires FramesWf(fs) && (fs != [] ==> !Last(fs).tree.Leaf?) && Bare(c) && Wf(c)
    ensures FramesWf(StartFrames(fs, CStr(key), c))
    ensures View(StartFrames(fs, CStr(key), c), None, key) ==
            OpenContainer(View(fs, None, key), OpenOf(Frame(c, CStr(key))))
  {
    if fs != [] {
      ViewOpened(fs, key, c);
    }
  }

  ghost function EndFrames(fs: seq<Frame>): seq<Frame>
    requires fs != [] && (|fs| >= 2 ==> !Last(Init(fs)).tree.Leaf?)
  {
    if |fs| == 1 then [] else CloseTop(fs)
  }

  ghost function EndRoot(fs: seq<Frame>): Option<Tree> {
    if |fs| == 1 then Some(fs[0].tree) else None
  }

  lemma EndOk(stack: seq<JsonNode>, fs: seq<Frame>, made: set<JsonNode>, key: string)
    requires fs != [] && Consistent(stack, fs, None, made)
    ensures |fs| >= 2 ==> !Last(Init(fs)).tree.Leaf?
    ensures Consistent(stack[1..], EndFrames(fs), EndRoot(fs), made)
    ensures View(EndFrames(fs), EndRoot(fs), key) == CloseContainer(View(fs, None, key))
  {
    if |fs| == 1 {
      assert fs == [fs[0]];
      ConsistentClosedRoot(stack, fs[0], made);
      ViewClosedRoot(fs[0], key);
    } else {
      ConsistentClosed(stack, fs, made);
      ViewClosed(fs, key);
    }
  }

  // -------------------------------------------------------------------- builder

  class Builder {
    var containerStack: seq<JsonNode>
    var tmpMapKey: string
    ghost var frames: seq<Frame>
    ghost var root: Option<Tree>
    ghost var made: set<JsonNode>

    /** Nodes reachable from the bottom of the stack. */
    ghost function Reachable(): set<JsonNode>
      reads this
    {
      FramesRefs(frames) + RootRefs(root)
    }

    ghost predicate Valid()
      reads this, made
    {
      Reachable() <= made && Consistent(containerStack, frames, root, made)
    }

    /** What has been built so far. */
    ghost function Abs(): Machine
      requires Valid()
      reads this, made
    {
      View(frames, root, tmpMapKey)
    }

    constructor ()
      ensures Valid() && made == {} && Abs() == EMPTY
    {
      containerStack, tmpMapKey := [], "";
      frames, root, made := [], None, {};
    }

    /** Takes on another consistent state of the nodes. */
    method Restack(stack: seq<JsonNode>, ghost fs: seq<Frame>, ghost r: Option<Tree>, ghost nodes: set<JsonNode>)
      requires Consistent(stack, fs, r, nodes)
      modifies this`containerStack, this`frames, this`root, this`made
      ensures Valid() && containerStack == stack && frames == fs && root == r && made == nodes
    {
      containerStack := stack;
      frames, root, made := fs, r, nodes;
    }

    /** The first node: it becomes the bottom of the stack. */
    method PutFirst(node: JsonNode, ghost c: Tree)
      requires Valid() && containerStack == []
      requires c.node == node && NewNode(c) && node !in made
      modifies this
      ensures Valid() && NewNode(c) && made == old(made) + {node} && tmpMapKey == old(tmpMapKey)
      ensures old(frames) == [] && old(root).None? && frames == [] && root == Some(c)
    {
      assert allocated(Refs(c)) && allocated(made);
      FirstNode(frames, root, made, c);
      Restack([node], [], Some(c), made + {node});
    }

    /** A later node: it is linked below the container at the head of the stack. */
    method PutBelow(node: JsonNode, ghost c: Tree)
      requires Valid() && frames != []
      requires c.node == node && NewNode(c) && node !in made
      modifies this, made
      ensures Valid() && NewNode(c) && made == old(made) + {node} && tmpMapKey == old(tmpMapKey)
      ensures !Last(old(frames)).tree.Leaf? && frames == Extended(old(frames), CStr(tmpMapKey), c)
      ensures root.None? && containerStack == old(containerStack)
    {
      ghost var fs, all := frames, made;
      LinkTop(containerStack, CStr(tmpMapKey), node, fs, all, c);
      Restack(containerStack, Extended(fs, CStr(tmpMapKey), c), None, all + {node});
    }

    /** jdBuilder_addValue. */
    method AddValue(node: JsonNode, ghost c: Tree)
      requires Valid() && (frames != [] || root.None?)
      requires c.node == node && NewNode(c) && node !in made
      modifies this, made
      ensures Valid() && NewNode(c) && made == old(made) + {node} && tmpMapKey == old(tmpMapKey)
      ensures old(frames) == [] ==> frames == [] && root == Some(c)
      ensures old(frames) != [] ==> !Last(old(frames)).tree.Leaf? && frames == Extended(old(frames), CStr(tmpMapKey), c)
    {
      if containerStack == [] {
        PutFirst(node, c);
      } else {
        PutBelow(node, c);
      }
    }

    /** The scalar callbacks. */
    method AddScalar(v: JsonScalar)
      requires Valid() && Legal(Abs(), Scalar(v))
      modifies this, made
      ensures Valid() && Abs() == Step(old(Abs()), Scalar(v))
      ensures old(made) <= made && fresh(made - old(made))
    {
      var node := new JsonNode(ScalarData(v));
      ghost var fs, c := frames, Leaf(node, v);
      AddValue(node, c);
      if fs != [] {
        ViewExtended(fs, tmpMapKey, c);
      }
    }

    /** Adds an empty container to the one that is open, then opens it in turn. */
    method AddContainer(node: JsonNode, ghost c: Tree)
      requires Valid() && (frames != [] || root.None?)
      requires c.node == node && NewNode(c) && Bare(c) && node !in made
      modifies this, made
      ensures Valid() && made == old(made) + {node} && tmpMapKey == old(tmpMapKey)
      ensures old(frames) != [] ==> !Last(old(frames)).tree.Leaf?
      ensures frames == StartFrames(old(frames), CStr(tmpMapKey), c) && root.None?
    {
      ghost var fs := frames;
      AddValue(node, c);
      StartOk(containerStack, fs, frames, root, c, made, tmpMapKey);
      Restack([node] + containerStack, StartFrames(fs, CStr(tmpMapKey), c), None, made);
    }

    method StartMap()
      requires Valid() && Legal(Abs(), Ev.StartMap)
      modifies this, made
      ensures Valid() && Abs() == Step(old(Abs()), Ev.StartMap)
      ensures old(made) <= made && fresh(made - old(made))
    {
      var node := new JsonNode(MapData(map[]));
      ghost var fs, c := frames, MapTree(node, [], []);
      BareNode(c);
      AddContainer(node, c);
      ViewStarted(fs, tmpMapKey, c);
    }

    method StartArray()
      requires Valid() && Legal(Abs(), Ev.StartArray)
      modifies this, made
      ensures Valid() && Abs() == Step(old(Abs()), Ev.StartArray)
      ensures old(made) <= made && fresh(made - old(made))
    {
      var node := new JsonNode(ArrayData([]));
      ghost var fs, c := frames, ArrTree(node, []);
      BareNode(c);
      AddContainer(node, c);
      ViewStarted(fs, tmpMapKey, c);
    }

    /** The one key register is overwritten. */
    method MapKey(k: string)
      requires Valid()
      modifies this
      ensures Valid() && Abs() == Step(old(Abs()), Ev.MapKey(k)) && made == old(made)
    {
      tmpMapKey := k;
    }

    /** jdBuilder_popContainerStack: nothing on the heap changes. */
    method EndContainer()
      requires Valid() && frames != []
      modifies this
      ensures Valid() && Abs() == CloseContainer(old(Abs())) && made == old(made)
    {
      EndOk(containerStack, frames, made, tmpMapKey);
      Restack(containerStack[1..], EndFrames(frames), EndRoot(frames), made);
    }

    /** One parser event: the abstract machine takes the same step. */
    method Callback(e: Ev)
      requires Valid() && Legal(Abs(), e)
      modifies this, made
      ensures Valid() && Abs() == Step(old(Abs()), e)
      ensures old(made) <= made && fresh(made - old(made))
    {
      match e
      case Scalar(v) => AddScalar(v);
      case StartMap => StartMap();
      case StartArray => StartArray();
      case MapKey(k) => MapKey(k);
      case EndMap => EndContainer();
      case EndArray => EndContainer();
    }

    /** The whole tree under the bottom of the stack, open or closed. */
    ghost function Whole(): Tree
      requires Valid() && containerStack != []
      reads this, made
    {
      NoLeaves(frames, None);
      if frames != [] then Closed(frames) else root.value
    }

    /** A freed node, and so a displaced one, is never on the stack. */
    lemma StackIsLive()
      requires Valid()
      ensures forall n :: n in containerStack ==> n in made && n.live
    {
      ReversedRefs(frames);
    }

    lemma WholeHolds()
      requires Valid() && containerStack != []
      ensures Wf(Whole()) && Holds(Whole()) && Refs(Whole()) == Reachable()
      ensures Whole().node == Last(containerStack)
    {
      NoLeaves(frames, None);
      if frames != [] {
        ClosedHolds(frames);
      }
    }
  }

  lemma FeedNext(es: seq<Ev>, i: nat)
    requires Feed(EMPTY, es).Some? && i < |es|
    ensures Feed(EMPTY, es[..i]).Some? && Legal(Feed(EMPTY, es[..i]).value, es[i])
    ensures Feed(EMPTY, es[..i + 1]) == Some(Step(Feed(EMPTY, es[..i]).value, es[i]))
  {
    assert es == es[..i] + es[i..];
    FeedPrefix(EMPTY, es[..i], es[i..]);
    FeedConcat(EMPTY, es[..i], es[i..]);
    assert es[..i + 1] == es[..i] + [es[i]];
    FeedConcat(EMPTY, es[..i], [es[i]]);
    FeedOne(Feed(EMPTY, es[..i]).value, es[i]);
  }

  /**
   * jdParser_buildDom after the parser has sent `events` and returned its status.
   * Text the parser accepts is one document; text it rejects can stop anywhere.
   * On success the result holds the document's value; otherwise every node made is
   * freed, exactly once.
   */
  method BuildDom(events: seq<Ev>, accepted: bool, ghost doc: Doc)
    returns (result: JsonNode?, ghost tree: Option<Tree>, ghost made: set<JsonNode>)
    requires Feed(EMPTY, events).Some? && (accepted ==> events == Events(doc))
    ensures fresh(made)
    ensures accepted ==>
      && tree.Some? && result == tree.value.node
      && Wf(tree.value) && Holds(tree.value) && Value(tree.value) == Built(doc) && Printable(tree.value)
      && Alive(made, Refs(tree.value))
    ensures !accepted ==> result == null && AllDead(made)
  {
    var ctx := new Builder();
    for i := 0 to |events|
      invariant ctx.Valid() && fresh(ctx) && fresh(ctx.made)
      invariant Feed(EMPTY, events[..i]) == Some(ctx.Abs())
    {
      FeedNext(events, i);
      ctx.Callback(events[i]);
    }
    assert events[..|events|] == events;
    made := ctx.made;
    result := if ctx.containerStack == [] then null else Last(ctx.containerStack);
    if accepted {
      BuildsDocument(doc);
      tree := ctx.root;
      BuiltNulFree(doc);
      PrintableIff(tree.value);
    } else {
      tree := None;
      if result != null {
        ctx.WholeHolds();
        Free(result, ctx.Whole());
        result := null;
      }
    }
  }

  /** Writing a tree out and parsing what was written builds an equal tree of new nodes. */
  method RoundTrip(node: JsonNode, ghost t: Tree) returns (copy: JsonNode, ghost u: Tree)
    requires t.node == node && Wf(t) && Holds(t) && Printable(t)
    ensures u.node == copy && Wf(u) && Holds(u) && Value(u) == Value(t)
    ensures fresh(Refs(u))
  {
    var events;
    ghost var d;
    events, d := Generate(node, t);
    PrintableIff(t);
    RoundTripIff(d, Value(t));
    ghost var tree, made;
    var result;
    result, tree, made := BuildDom(events, true, d);
    copy, u := result, tree.value;
  }
}
