/** The heading tree of verify_i18n_alignment.py as a value: what its preorder says about it, and the
    stack of open sections it grows on. DocNodes builds it. */
module DocTree {

  datatype Block =
    | Code(lang: string) | Mermaid | Image | Table(cols: nat) | Alert(kind: string)
    | ListBlock | Paragraph

  /** What the line scanner recognizes, in document order. */
  datatype Token = Heading(level: nat, prefix: string, title: string) | Leaf(block: Block)

  /** What a section says by itself. */
  datatype Section = Section(level: nat, prefix: string, title: string, blocks: seq<Block>)

  datatype Node = Node(own: Section, children: seq<Node>)

  const ROOT := Section(0, "", "DOCUMENT_ROOT", [])

  /** Adjacent paragraphs, and adjacent lists, collapse into one. */
  function AddBlock(bs: seq<Block>, b: Block): seq<Block> {
    if (b.Paragraph? || b.ListBlock?) && |bs| > 0 && bs[|bs| - 1] == b then bs else bs + [b]
  }

  function Extend(s: Section, b: Block): Section {
    s.(blocks := AddBlock(s.blocks, b))
  }

  /** A heading opens a section; a block goes to the last section so far. */
  function Next(s: seq<Section>, t: Token): (n: seq<Section>)
    requires |s| > 0
    ensures |n| > 0
  {
    match t
    case Heading(level, prefix, title) => s + [Section(level, prefix, title, [])]
    case Leaf(b) => s[|s| - 1 := Extend(s[|s| - 1], b)]
  }

  /** The document as a flat list of sections. */
  function Sections(ts: seq<Token>): (s: seq<Section>)
    ensures |s| > 0
  {
    if |ts| == 0 then [ROOT] else Next(Sections(ts[..|ts| - 1]), ts[|ts| - 1])
  }

  // ---------- preorder ----------

  function Flat(n: Node): seq<Section>
    decreases n, 0
  {
    [n.own] + FlatForest(n.children)
  }

  function FlatForest(cs: seq<Node>): seq<Section> {
    if |cs| == 0 then [] else Flat(cs[0]) + FlatForest(cs[1..])
  }

  /** Siblings lie above a level and do not get deeper; each is well formed below its own level. */
  predicate WfForest(cs: seq<Node>, above: int) {
    && (forall i :: 0 <= i < |cs| ==> cs[i].own.level > above && Wf(cs[i]))
    && (forall i, j :: 0 <= i < j < |cs| ==> cs[i].own.level >= cs[j].own.level)
  }

  predicate Wf(n: Node) {
    WfForest(n.children, n.own.level)
  }

  lemma {:induction false} ForestCons(cs: seq<Node>)
    requires |cs| > 0
    ensures FlatForest(cs) == Flat(cs[0]) + FlatForest(cs[1..])
  {
  }

  lemma {:induction false} ForestConcat(a: seq<Node>, b: seq<Node>)
    ensures FlatForest(a + b) == FlatForest(a) + FlatForest(b)
  {
    if |a| == 0 {
      hide Flat;
      assert a + b == b;
    } else {
      hide *;
      ForestCons(a);
      ForestCons(a + b);
      ForestConcat(a[1..], b);
      assert (a + b)[1..] == a[1..] + b;
    }
  }

  lemma {:induction false} FlatOne(n: Node)
    ensures FlatForest([n]) == Flat(n)
  {
    assert [n][1..] == [];
  }

  // ---------- the preorder determines the tree ----------

  predicate AllAbove(s: seq<Section>, level: int) {
    forall i :: 0 <= i < |s| ==> s[i].level > level
  }

  lemma {:induction false} ForestAbove(cs: seq<Node>, above: int)
    requires WfForest(cs, above)
    ensures AllAbove(FlatForest(cs), above)
  {
    if |cs| > 0 {
      ForestAbove(cs[0].children, cs[0].own.level);
      WfRest(cs, above);
      ForestAbove(cs[1..], above);
    }
  }

  lemma {:induction false} WfRest(cs: seq<Node>, above: int)
    requires WfForest(cs, above) && |cs| > 0
    ensures WfForest(cs[1..], above)
    ensures |cs| > 1 ==> cs[1].own.level <= cs[0].own.level
  {
    forall i | 0 <= i < |cs| - 1 ensures cs[1..][i].own.level > above && Wf(cs[1..][i]) {
      assert cs[1..][i] == cs[i + 1];
    }
  }

  /** Length of the first run of sections above a level. */
  function RunAbove(s: seq<Section>, level: int): (k: nat)
    ensures k <= |s|
  {
    if |s| == 0 || s[0].level <= level then 0 else 1 + RunAbove(s[1..], level)
  }

  lemma {:induction false} RunEnds(u: seq<Section>, v: seq<Section>, level: int)
    requires AllAbove(u, level) && (|v| > 0 ==> v[0].level <= level)
    ensures RunAbove(u + v, level) == |u|
  {
    if |u| == 0 {
      assert u + v == v;
    } else {
      RunEnds(u[1..], v, level);
      assert (u + v)[1..] == u[1..] + v;
    }
  }

  lemma {:induction false} ForestHead(cs: seq<Node>)
    requires |cs| > 0
    ensures var s := FlatForest(cs);
      |s| > 0 && s[0] == cs[0].own && s[1..] == FlatForest(cs[0].children) + FlatForest(cs[1..])
  {
    assert Flat(cs[0])[0] == cs[0].own;
  }

  /** The first tree of a forest ends where the levels come back to its own. */
  lemma {:induction false} FirstTree(cs: seq<Node>, above: int)
    requires WfForest(cs, above) && |cs| > 0
    ensures var s := FlatForest(cs);
      && |s| > 0 && s[0] == cs[0].own
      && var k := RunAbove(s[1..], s[0].level);
         FlatForest(cs[0].children) == s[1..][..k] && FlatForest(cs[1..]) == s[1..][k..]
  {
    var u, v := FlatForest(cs[0].children), FlatForest(cs[1..]);
    ForestAbove(cs[0].children, cs[0].own.level);
    WfRest(cs, above);
    ForestHead(cs);
    if |cs| > 1 {
      ForestHead(cs[1..]);
    }
    RunEnds(u, v, cs[0].own.level);
  }

  lemma {:induction false} FirstEqual(a: seq<Node>, b: seq<Node>, above: int, below: int)
    requires WfForest(a, above) && WfForest(b, below) && |a| > 0 && |b| > 0 && FlatForest(a) == FlatForest(b)
    ensures a[0].own == b[0].own
    ensures FlatForest(a[0].children) == FlatForest(b[0].children) && FlatForest(a[1..]) == FlatForest(b[1..])
    ensures |FlatForest(a[0].children)| < |FlatForest(a)| && |FlatForest(a[1..])| < |FlatForest(a)|
  {
    FirstTree(a, above);
    FirstTree(b, below);
    hide FlatForest, WfForest, RunAbove;
  }

  lemma {:induction false} WfFirst(cs: seq<Node>, above: int)
    requires WfForest(cs, above) && |cs| > 0
    ensures WfForest(cs[0].children, cs[0].own.level) && WfForest(cs[1..], above)
  {
    assert Wf(cs[0]);
    WfRest(cs, above);
  }

  lemma {:induction false} SameForest(a: seq<Node>, b: seq<Node>)
    requires |a| > 0 && |b| > 0 && a[0].own == b[0].own && a[0].children == b[0].children && a[1..] == b[1..]
    ensures a == b
  {
    assert a == [a[0]] + a[1..] && b == [b[0]] + b[1..];
  }

  /** Two well-formed forests with the same preorder are the same forest. */
  lemma {:induction false} ForestUnique(a: seq<Node>, b: seq<Node>, above: int, below: int)
    requires WfForest(a, above) && WfForest(b, below) && FlatForest(a) == FlatForest(b)
    ensures a == b
    decreases |FlatForest(a)|
  {
    if |a| > 0 {
      ForestHead(a);
    }
    if |b| > 0 {
      ForestHead(b);
    }
    if |a| > 0 && |b| > 0 {
      hide *;
      FirstEqual(a, b, above, below);
      WfFirst(a, above);
      WfFirst(b, below);
      ForestUnique(a[0].children, b[0].children, a[0].own.level, b[0].own.level);
      ForestUnique(a[1..], b[1..], above, below);
      SameForest(a, b);
    } else {
      hide Flat;
    }
  }

  /** A well-formed tree is determined by its preorder. */
  lemma {:induction false} TreeUnique(a: Node, b: Node)
    requires Wf(a) && Wf(b) && Flat(a) == Flat(b)
    ensures a == b
  {
    assert Flat(a)[1..] == FlatForest(a.children) && Flat(b)[1..] == FlatForest(b.children);
    assert Flat(a)[0] == a.own && Flat(b)[0] == b.own;
    ForestUnique(a.children, b.children, a.own.level, b.own.level);
  }

  // ---------- the stack of open sections ----------

  function FlatStack(stack: seq<Node>): seq<Section> {
    if |stack| == 0 then [] else FlatStack(stack[..|stack| - 1]) + Flat(stack[|stack| - 1])
  }

  /** Open sections get deeper; what is closed under one is well formed and not shallower than the
      open section that follows. */
  predicate StackSound(stack: seq<Node>) {
    && |stack| > 0 && stack[0].own.level == 0
    && (forall i :: 0 <= i < |stack| ==> Wf(stack[i]))
    && (forall i :: 0 <= i < |stack| - 1 ==> stack[i].own.level < stack[i + 1].own.level && Fits(stack[i], stack[i + 1].own.level))
  }

  /** A section of that level may follow the closed children of n. */
  predicate Fits(n: Node, level: nat) {
    forall i :: 0 <= i < |n.children| ==> n.children[i].own.level >= level
  }

  function Top(stack: seq<Node>): Node
    requires |stack| > 0
  {
    stack[|stack| - 1]
  }

  function Adopt(parent: Node, child: Node): Node {
    parent.(children := parent.children + [child])
  }

  /** The top section is closed and belongs to the one below it. */
  function Closed(stack: seq<Node>): seq<Node>
    requires |stack| > 1
  {
    stack[..|stack| - 2] + [Adopt(stack[|stack| - 2], Top(stack))]
  }

  lemma {:induction false} AdoptWf(parent: Node, child: Node)
    requires Wf(parent) && Wf(child) && parent.own.level < child.own.level && Fits(parent, child.own.level)
    ensures Wf(Adopt(parent, child)) && Fits(Adopt(parent, child), child.own.level)
    ensures Flat(Adopt(parent, child)) == Flat(parent) + Flat(child)
  {
    ForestConcat(parent.children, [child]);
    FlatOne(child);
    var cs := parent.children + [child];
    assert WfForest(parent.children, parent.own.level);
    forall i | 0 <= i < |cs| ensures cs[i].own.level > parent.own.level && Wf(cs[i]) {
      assert i < |parent.children| ==> cs[i] == parent.children[i];
    }
  }

  lemma {:induction false} ClosedFlat(front: seq<Node>, p: Node, c: Node)
    requires Flat(Adopt(p, c)) == Flat(p) + Flat(c)
    ensures FlatStack(front + [Adopt(p, c)]) == FlatStack(front + [p] + [c])
  {
    hide Flat, Adopt;
    var one, two := front + [p], front + [p] + [c];
    assert one[..|front|] == front && two[..|front| + 1] == one;
    assert (front + [Adopt(p, c)])[..|front|] == front;
  }

  lemma {:induction false} ClosedOrder(stack: seq<Node>)
    requires StackSound(stack) && |stack| > 1
    requires Wf(Top(Closed(stack)))
    ensures StackSound(Closed(stack))
  {
    hide Wf, Fits;
    var e := Closed(stack);
    forall i | 0 <= i < |e| ensures e[i].own == stack[i].own && (i < |e| - 1 ==> e[i] == stack[i]) {
    }
  }

  lemma {:induction false} ClosedSound(stack: seq<Node>)
    requires StackSound(stack) && |stack| > 1
    ensures StackSound(Closed(stack)) && FlatStack(Closed(stack)) == FlatStack(stack)
    ensures Fits(Top(Closed(stack)), Top(stack).own.level)
  {
    var n := |stack|;
    var p, c := stack[n - 2], stack[n - 1];
    assert stack[n - 2].own.level < stack[n - 2 + 1].own.level && Fits(stack[n - 2], stack[n - 2 + 1].own.level);
    AdoptWf(p, c);
    ClosedOrder(stack);
    hide StackSound, Wf, Fits, Flat, FlatStack;
    ClosedFlat(stack[..n - 2], p, c);
    assert stack == stack[..n - 2] + [p] + [c];
  }

  lemma {:induction false} PushedSound(stack: seq<Node>, own: Section)
    requires StackSound(stack) && Top(stack).own.level < own.level && Fits(Top(stack), own.level)
    ensures StackSound(stack + [Node(own, [])]) && FlatStack(stack + [Node(own, [])]) == FlatStack(stack) + [own]
  {
    var e := stack + [Node(own, [])];
    assert e[..|stack|] == stack;
    assert Flat(Node(own, [])) == [own] && Wf(Node(own, []));
    hide Wf, Fits;
  }

  lemma {:induction false} StartSound()
    ensures StackSound([Node(ROOT, [])]) && FlatStack([Node(ROOT, [])]) == [ROOT]
  {
    assert [Node(ROOT, [])][..0] == [];
    assert Flat(Node(ROOT, [])) == [ROOT];
  }

  /** A block joins the innermost open section, which is the last one in the document so far. */
  lemma {:induction false} ExtendSound(stack: seq<Node>, b: Block)
    requires StackSound(stack) && Top(stack).children == []
    ensures var e := stack[|stack| - 1 := Node(Extend(Top(stack).own, b), [])];
      var s := FlatStack(stack);
      StackSound(e) && |s| > 0 && FlatStack(e) == s[|s| - 1 := Extend(s[|s| - 1], b)]
  {
    var n := |stack| - 1;
    var e := stack[n := Node(Extend(Top(stack).own, b), [])];
    assert e[..n] == stack[..n];
    assert Flat(stack[n]) == [stack[n].own] && Flat(e[n]) == [e[n].own];
    assert Wf(e[n]);
    hide Wf, Fits, Flat;
    assert FlatStack(stack) == FlatStack(stack[..n]) + [stack[n].own];
  }
}
