/** Building the heading tree out of mutable nodes, as the script does: a new node joins its parent's
    children when it is opened, and later blocks and children reach it through the stack. The proof
    mirrors the heap by a store of numbered nodes in the order of their creation. */
module DocNodes {
  import opened DocTree

  class SectionNode {
    var own: Section
    var children: seq<SectionNode>

    constructor (own: Section)
      ensures this.own == own && children == []
    {
      this.own := own;
      children := [];
    }

    /** add_block, with its collapsing of adjacent paragraphs and lists. */
    method Add(b: Block)
      modifies this`own
      ensures own == Extend(old(own), b)
    {
      if (b.Paragraph? || b.ListBlock?) && |own.blocks| > 0 && own.blocks[|own.blocks| - 1] == b {
        return;
      }
      own := own.(blocks := own.blocks + [b]);
    }
  }

  /** The object and everything below it look like this tree. */
  ghost predicate Represents(n: SectionNode, t: Node)
    reads *
    decreases t
  {
    && n.own == t.own && |n.children| == |t.children|
    && forall i :: 0 <= i < |n.children| ==> Represents(n.children[i], t.children[i])
  }

  // ---------- the mirror ----------

  datatype Store = Store(owns: seq<Section>, kids: seq<seq<nat>>)

  /** Children are created after their parents. */
  predicate Forward(s: Store) {
    && |s.owns| == |s.kids|
    && forall k, i :: 0 <= k < |s.kids| && 0 <= i < |s.kids[k]| ==> k < s.kids[k][i] < |s.kids|
  }

  function TreeOf(s: Store, k: nat): Node
    requires Forward(s) && k < |s.kids|
    decreases |s.kids| - k
  {
    Node(s.owns[k], seq(|s.kids[k]|, i requires 0 <= i < |s.kids[k]| => TreeOf(s, s.kids[k][i])))
  }

  /** Everything below k was created before hi. */
  predicate Bounded(s: Store, k: nat, hi: nat)
    requires Forward(s) && k < |s.kids|
    decreases |s.kids| - k
  {
    k < hi && forall i :: 0 <= i < |s.kids[k]| ==> Bounded(s, s.kids[k][i], hi)
  }

  ghost predicate Mirrors(nodes: seq<SectionNode>, s: Store)
    reads nodes
  {
    && |nodes| == |s.owns| == |s.kids| && Forward(s)
    && (forall j, k :: 0 <= j < k < |nodes| ==> nodes[j] != nodes[k])
    && (forall k :: 0 <= k < |nodes| ==> nodes[k].own == s.owns[k] && |nodes[k].children| == |s.kids[k]|)
    && forall k, i :: 0 <= k < |nodes| && 0 <= i < |s.kids[k]| ==> nodes[k].children[i] == nodes[s.kids[k][i]]
  }

  lemma {:induction false} MirrorRepresents(nodes: seq<SectionNode>, s: Store, k: nat)
    requires Mirrors(nodes, s) && k < |nodes|
    ensures Represents(nodes[k], TreeOf(s, k))
    decreases |nodes| - k
  {
    forall i | 0 <= i < |s.kids[k]| ensures Represents(nodes[k].children[i], TreeOf(s, k).children[i]) {
      MirrorRepresents(nodes, s, s.kids[k][i]);
    }
  }

  /** A subtree only depends on the entries created in its time. */
  lemma {:induction false} SameTree(s: Store, t: Store, k: nat, hi: nat)
    requires Forward(s) && Forward(t) && k < |s.kids| && Bounded(s, k, hi) && hi <= |s.kids| <= |t.kids|
    requires forall j :: k <= j < hi ==> s.owns[j] == t.owns[j] && s.kids[j] == t.kids[j]
    ensures TreeOf(t, k) == TreeOf(s, k) && Bounded(t, k, hi)
    decreases |s.kids| - k
  {
    forall i | 0 <= i < |s.kids[k]| ensures TreeOf(t, s.kids[k][i]) == TreeOf(s, s.kids[k][i]) && Bounded(t, s.kids[k][i], hi) {
      SameTree(s, t, s.kids[k][i], hi);
    }
    assert TreeOf(t, k).children == TreeOf(s, k).children;
  }

  lemma {:induction false} BoundedLater(s: Store, k: nat, hi: nat, later: nat)
    requires Forward(s) && k < |s.kids| && Bounded(s, k, hi) && hi <= later
    ensures Bounded(s, k, later)
    decreases |s.kids| - k
  {
    forall i | 0 <= i < |s.kids[k]| ensures Bounded(s, s.kids[k][i], later) {
      BoundedLater(s, s.kids[k][i], hi, later);
    }
  }

  // ---------- the open sections ----------

  /** Where the time of open section i ends so far. */
  function Until(s: Store, idx: seq<nat>, i: nat): nat
    requires i < |idx|
  {
    if i + 1 < |idx| then idx[i + 1] else |s.kids|
  }

  /** Entry idx[i] is open section z = stack[i] of the value stack, with the next open one as its last child. */
  predicate OpenAt(s: Store, idx: seq<nat>, i: nat, z: Node)
    requires Forward(s) && i < |idx| && idx[i] < |s.kids|
  {
    var ks := s.kids[idx[i]];
    && s.owns[idx[i]] == z.own && Until(s, idx, i) <= |s.kids| && idx[i] < Until(s, idx, i)
    && |ks| == |z.children| + (if i + 1 < |idx| then 1 else 0)
    && (i + 1 < |idx| ==> ks[|ks| - 1] == idx[i + 1])
    && forall j :: 0 <= j < |z.children| ==> Bounded(s, ks[j], Until(s, idx, i)) && z.children[j] == TreeOf(s, ks[j])
  }

  predicate Opened(s: Store, idx: seq<nat>, stack: seq<Node>) {
    && Forward(s) && |idx| == |stack| > 0 && idx[0] == 0
    && (forall i :: 0 <= i < |idx| ==> idx[i] < |s.kids|)
    && (forall i, j :: 0 <= i < j < |idx| ==> idx[i] < idx[j])
    && forall i :: 0 <= i < |idx| ==> OpenAt(s, idx, i, stack[i])
  }

  lemma {:induction false} TopTree(s: Store, idx: seq<nat>, stack: seq<Node>)
    requires Opened(s, idx, stack)
    ensures var k := idx[|idx| - 1];
      TreeOf(s, k) == Top(stack) && Bounded(s, k, |s.kids|)
  {
    var n := |idx| - 1;
    assert OpenAt(s, idx, n, stack[n]);
    assert TreeOf(s, idx[n]).children == Top(stack).children;
  }

  /** Closing a section changes nothing in the heap: it already is the last child of its parent. */
  lemma {:induction false} ClosedOpened(s: Store, idx: seq<nat>, stack: seq<Node>)
    requires Opened(s, idx, stack) && |stack| > 1
    ensures Opened(s, idx[..|idx| - 1], Closed(stack))
  {
    var n := |idx| - 2;
    var e, out := idx[..n + 1], Closed(stack);
    TopTree(s, idx, stack);
    assert OpenAt(s, idx, n, stack[n]);
    forall i | 0 <= i < |e| ensures OpenAt(s, e, i, out[i]) {
      assert OpenAt(s, idx, i, stack[i]);
      if i == n {
        var ks := s.kids[idx[n]];
        forall j | 0 <= j < |out[n].children|
          ensures Bounded(s, ks[j], |s.kids|) && out[n].children[j] == TreeOf(s, ks[j]) {
          if j < |stack[n].children| {
            BoundedLater(s, ks[j], idx[n + 1], |s.kids|);
          }
        }
      }
    }
  }

  /** A block added to entry p. */
  function Extended(s: Store, p: nat, b: Block): Store
    requires p < |s.owns|
  {
    s.(owns := s.owns[p := Extend(s.owns[p], b)])
  }

  lemma {:induction false} ExtendedOpened(s: Store, idx: seq<nat>, stack: seq<Node>, b: Block)
    requires Opened(s, idx, stack)
    ensures var n := |idx| - 1;
      Opened(Extended(s, idx[n], b), idx, stack[n := Node(Extend(Top(stack).own, b), Top(stack).children)])
  {
    var n := |idx| - 1;
    var t := Extended(s, idx[n], b);
    var out := stack[n := Node(Extend(Top(stack).own, b), Top(stack).children)];
    assert OpenAt(s, idx, n, stack[n]);
    forall i | 0 <= i < |idx| ensures OpenAt(t, idx, i, out[i]) {
      KeptOpen(s, t, idx, idx, i, stack[i], out[i]);
    }
  }

  /** Changes to the top entry and additions behind it leave every open section's closed children alone. */
  lemma {:induction false} KeptOpen(s: Store, t: Store, idx: seq<nat>, e: seq<nat>, i: nat, z: Node, y: Node)
    requires Forward(s) && Forward(t) && i < |idx| <= |e| && idx[i] < |s.kids| <= |t.kids| && OpenAt(s, idx, i, z)
    requires e[..|idx|] == idx && (forall j, k :: 0 <= j < k < |e| ==> e[j] < e[k])
    requires Until(t, e, i) == Until(s, idx, i) && y.children == z.children && t.owns[e[i]] == y.own
    requires forall j :: 0 <= j < |s.kids| && j != idx[|idx| - 1] ==> s.owns[j] == t.owns[j] && s.kids[j] == t.kids[j]
    requires s.kids[idx[i]] <= t.kids[e[i]] && |t.kids[e[i]]| == |z.children| + (if i + 1 < |e| then 1 else 0)
    requires i + 1 < |e| ==> t.kids[e[i]][|t.kids[e[i]]| - 1] == e[i + 1]
    ensures OpenAt(t, e, i, y)
  {
    assert e[i] == idx[i];
    var hi := Until(s, idx, i);
    var ks := s.kids[idx[i]];
    assert idx[|idx| - 1] <= idx[i] || hi <= idx[|idx| - 1] by {
      if i + 1 < |idx| {
        assert e[i + 1] == idx[i + 1] && e[|idx| - 1] == idx[|idx| - 1];
      }
    }
    forall j | 0 <= j < |z.children|
      ensures Bounded(t, t.kids[e[i]][j], hi) && y.children[j] == TreeOf(t, t.kids[e[i]][j]) {
      assert t.kids[e[i]][j] == ks[j] > idx[i];
      SameTree(s, t, ks[j], hi);
    }
  }

  /** A new entry, opened as the last child of entry p. */
  function Attached(s: Store, p: nat, own: Section): Store
    requires p < |s.kids|
  {
    Store(s.owns + [own], s.kids[p := s.kids[p] + [|s.kids|]] + [[]])
  }

  lemma {:induction false} AttachedOpened(s: Store, idx: seq<nat>, stack: seq<Node>, own: Section)
    requires Opened(s, idx, stack)
    ensures var n := |idx| - 1;
      Opened(Attached(s, idx[n], own), idx + [|s.kids|], stack + [Node(own, [])])
  {
    var n := |idx| - 1;
    var t := Attached(s, idx[n], own);
    var e, out := idx + [|s.kids|], stack + [Node(own, [])];
    assert OpenAt(s, idx, n, stack[n]);
    assert Forward(t);
    forall i | 0 <= i < |e| ensures OpenAt(t, e, i, out[i]) {
      if i <= n {
        assert OpenAt(s, idx, i, stack[i]);
        KeptOpen(s, t, idx, e, i, stack[i], out[i]);
      }
    }
  }

  // ---------- the builder ----------

  method AddTo(ghost nodes: seq<SectionNode>, node: SectionNode, b: Block, ghost s: Store, ghost p: nat)
    requires Mirrors(nodes, s) && p < |nodes| && node == nodes[p]
    modifies node`own
    ensures Mirrors(nodes, Extended(s, p, b))
  {
    node.Add(b);
  }

  method Open(ghost nodes: seq<SectionNode>, parent: SectionNode, own: Section, ghost s: Store, ghost p: nat) returns (node: SectionNode)
    requires Mirrors(nodes, s) && p < |nodes| && parent == nodes[p]
    modifies parent`children
    ensures fresh(node) && Mirrors(nodes + [node], Attached(s, p, own))
  {
    node := new SectionNode(own);
    parent.children := parent.children + [node];
  }

  /** What the proof tracks beside the script's stack: the nodes in creation order, their mirror, the
      positions of the open ones, and the open sections as values. */
  datatype Mirror = Mirror(nodes: seq<SectionNode>, s: Store, idx: seq<nat>, open: seq<Node>)

  /** The stack holds the open nodes; the document so far is `seen`. */
  ghost predicate Tracks(m: Mirror, stack: seq<SectionNode>, seen: seq<Section>)
    reads m.nodes
  {
    && Mirrors(m.nodes, m.s) && Opened(m.s, m.idx, m.open) && StackSound(m.open) && FlatStack(m.open) == seen
    && |stack| == |m.idx| && forall i :: 0 <= i < |stack| ==> m.idx[i] < |m.nodes| && stack[i] == m.nodes[m.idx[i]]
  }

  lemma {:induction false} TopOwn(m: Mirror, stack: seq<SectionNode>, seen: seq<Section>)
    requires Tracks(m, stack, seen)
    ensures |stack| == |m.open| > 0 && stack[|stack| - 1].own == Top(m.open).own && stack[|stack| - 1] in m.nodes
  {
    var n := |stack| - 1;
    assert OpenAt(m.s, m.idx, n, m.open[n]);
  }

  /** Closing the top section only shortens the stack. */
  lemma {:induction false} Shorter(m: Mirror, stack: seq<SectionNode>, seen: seq<Section>, level: nat) returns (e: Mirror)
    requires Tracks(m, stack, seen) && |stack| > 1 && Top(m.open).own.level >= level
    ensures Tracks(e, stack[..|stack| - 1], seen) && e.nodes == m.nodes && e.s == m.s && Fits(Top(e.open), level)
  {
    ClosedOpened(m.s, m.idx, m.open);
    ClosedSound(m.open);
    e := m.(idx := m.idx[..|m.idx| - 1], open := Closed(m.open));
    hide Opened, Mirrors, StackSound, FlatStack;
  }

  lemma {:induction false} NoneFits(n: Node, level: nat)
    requires n.children == []
    ensures Fits(n, level)
  {
  }

  lemma {:induction false} RootLevel(m: Mirror, stack: seq<SectionNode>, seen: seq<Section>)
    requires Tracks(m, stack, seen) && |stack| == 1
    ensures Top(m.open).own.level == 0
  {
  }

  /** Pops the sections that a heading of this level ends. */
  method CloseTo(stack: seq<SectionNode>, level: nat, ghost m: Mirror, ghost seen: seq<Section>) returns (rest: seq<SectionNode>, ghost e: Mirror)
    requires Tracks(m, stack, seen) && |m.open| > 0 && Top(m.open).children == [] && 1 <= level
    ensures Tracks(e, rest, seen) && e.nodes == m.nodes && e.s == m.s
    ensures |e.open| > 0 && Fits(Top(e.open), level) && Top(e.open).own.level < level
  {
    rest, e := stack, m;
    TopOwn(e, rest, seen);
    NoneFits(Top(e.open), level);
    hide *;
    while |rest| > 1 && rest[|rest| - 1].own.level >= level
      invariant Tracks(e, rest, seen) && e.nodes == m.nodes && e.s == m.s
      invariant |rest| == |e.open| > 0 && rest[|rest| - 1].own == Top(e.open).own && Fits(Top(e.open), level)
    {
      e := Shorter(e, rest, seen, level);
      rest := rest[..|rest| - 1];
      TopOwn(e, rest, seen);
    }
    if |rest| == 1 {
      RootLevel(e, rest, seen);
    }
  }

  /** A block goes to the innermost open section. */
  method FeedLeaf(stack: seq<SectionNode>, b: Block, ghost m: Mirror, ghost seen: seq<Section>) returns (ghost e: Mirror)
    requires Tracks(m, stack, seen) && |stack| > 0 && |m.open| > 0 && Top(m.open).children == []
    modifies m.nodes
    ensures |seen| > 0 && Tracks(e, stack, Next(seen, Leaf(b))) && e.nodes == m.nodes
    ensures |e.open| > 0 && Top(e.open).children == []
  {
    TopOwn(m, stack, seen);
    var p := m.idx[|m.idx| - 1];
    ExtendedOpened(m.s, m.idx, m.open, b);
    ExtendSound(m.open, b);
    AddTo(m.nodes, stack[|stack| - 1], b, m.s, p);
    e := m.(s := Extended(m.s, p, b), open := m.open[|m.open| - 1 := Node(Extend(Top(m.open).own, b), [])]);
    hide Opened, Mirrors, StackSound, FlatStack, Extended;
  }

  /** A heading opens a new last child of the section it belongs to. */
  method FeedHeading(stack: seq<SectionNode>, own: Section, ghost m: Mirror, ghost seen: seq<Section>) returns (next: seq<SectionNode>, ghost e: Mirror)
    requires Tracks(m, stack, seen) && |stack| > 0 && |m.open| > 0
    requires Fits(Top(m.open), own.level) && Top(m.open).own.level < own.level
    modifies m.nodes
    ensures Tracks(e, next, seen + [own]) && |e.nodes| == |m.nodes| + 1 && e.nodes[..|m.nodes|] == m.nodes && fresh(e.nodes[|m.nodes|])
    ensures |e.open| > 0 && Top(e.open).children == []
  {
    TopOwn(m, stack, seen);
    ghost var p := m.idx[|m.idx| - 1];
    AttachedOpened(m.s, m.idx, m.open, own);
    PushedSound(m.open, own);
    var node := Open(m.nodes, stack[|stack| - 1], own, m.s, p);
    next := stack + [node];
    e := Mirror(m.nodes + [node], Attached(m.s, p, own), m.idx + [|m.s.kids|], m.open + [Node(own, [])]);
    hide Opened, StackSound, FlatStack, Attached;
  }

  /** One token: a block goes to the top section, a heading first closes what it ends. */
  method Feed(stack: seq<SectionNode>, t: Token, ghost m: Mirror, ghost seen: seq<Section>) returns (next: seq<SectionNode>, ghost e: Mirror)
    requires Tracks(m, stack, seen) && |stack| > 0 && |m.open| > 0 && Top(m.open).children == [] && |seen| > 0
    requires t.Heading? ==> 1 <= t.level
    modifies m.nodes
    ensures Tracks(e, next, Next(seen, t))
    ensures |m.nodes| <= |e.nodes| && e.nodes[..|m.nodes|] == m.nodes
    ensures forall k :: |m.nodes| <= k < |e.nodes| ==> fresh(e.nodes[k])
    ensures |next| > 0 && |e.open| > 0 && Top(e.open).children == []
  {
    hide *;
    match t {
      case Leaf(b) =>
        e := FeedLeaf(stack, b, m, seen);
        next := stack;
      case Heading(level, prefix, title) =>
        var rest, r := CloseTo(stack, level, m, seen);
        TopOwn(r, rest, seen);
        var own := Section(level, prefix, title, []);
        NextHeading(seen, t);
        next, e := FeedHeading(rest, own, r, seen);
    }
    TopOwn(e, next, Next(seen, t));
  }

  method Start() returns (root: SectionNode, ghost m: Mirror)
    ensures fresh(root) && m.nodes == [root] && Tracks(m, [root], [ROOT]) && |m.open| > 0 && Top(m.open).children == []
  {
    root := new SectionNode(ROOT);
    m := Mirror([root], Store([ROOT], [[]]), [0], [Node(ROOT, [])]);
    StartSound();
    assert OpenAt(m.s, m.idx, 0, m.open[0]);
    hide StackSound, FlatStack;
  }

  /** What the nodes amount to at the end. */
  lemma {:induction false} Finish(m: Mirror, stack: seq<SectionNode>, seen: seq<Section>) returns (tree: Node)
    requires Tracks(m, stack, seen) && |m.nodes| > 0
    ensures Represents(m.nodes[0], tree) && Wf(tree) && tree.own.level == 0 && Flat(tree) == seen
  {
    tree := CloseAll(m.s, m.idx, m.open);
    hide Opened, StackSound, FlatStack, TreeOf, Represents, Wf, Flat;
    MirrorRepresents(m.nodes, m.s, 0);
  }

  /** Builds the tree of a document out of nodes. The levels are those of `#` to `######`. */
  method Build(ts: seq<Token>) returns (root: SectionNode, ghost tree: Node)
    requires forall i :: 0 <= i < |ts| && ts[i].Heading? ==> 1 <= ts[i].level <= 6
    ensures fresh(root) && Represents(root, tree)
    ensures Wf(tree) && tree.own.level == 0 && Flat(tree) == Sections(ts)
  {
    hide *;
    ghost var m;
    root, m := Start();
    var stack := [root];
    NoSections(ts);
    for n := 0 to |ts|
      invariant Tracks(m, stack, Sections(ts[..n])) && |m.nodes| > 0 && root == m.nodes[0]
      invariant |stack| > 0 && |m.open| > 0 && Top(m.open).children == []
      invariant forall k :: 0 <= k < |m.nodes| ==> fresh(m.nodes[k])
    {
      ghost var seen := Sections(ts[..n]);
      SectionsNext(ts, n);
      stack, m := Feed(stack, ts[n], m, seen);
    }
    assert ts[..|ts|] == ts;
    tree := Finish(m, stack, Sections(ts));
  }

  lemma NoSections(ts: seq<Token>)
    ensures Sections(ts[..0]) == [ROOT]
  {
  }

  lemma {:induction false} NextHeading(seen: seq<Section>, t: Token)
    requires |seen| > 0
    ensures t.Heading? ==> Next(seen, t) == seen + [Section(t.level, t.prefix, t.title, [])]
  {
  }

  lemma {:induction false} SectionsNext(ts: seq<Token>, n: nat)
    requires n < |ts|
    ensures Sections(ts[..n + 1]) == Next(Sections(ts[..n]), ts[n])
  {
    assert ts[..n + 1][..n] == ts[..n];
  }

  /** The value tree that the still open sections amount to. */
  lemma {:induction false} CloseAll(s: Store, idx: seq<nat>, open: seq<Node>) returns (tree: Node)
    requires Opened(s, idx, open) && StackSound(open)
    ensures Wf(tree) && tree.own.level == 0 && Flat(tree) == FlatStack(open) && tree == TreeOf(s, 0)
    decreases |open|
  {
    if |open| == 1 {
      tree := open[0];
      TopTree(s, idx, open);
      assert open[..0] == [];
    } else {
      ClosedOpened(s, idx, open);
      ClosedSound(open);
      tree := CloseAll(s, idx[..|idx| - 1], Closed(open));
    }
  }
}
