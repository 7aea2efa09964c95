/** The comparison is exact: full score, no difference reported, and equal flattened documents are
    one and the same thing. */
module DocAlign {
  import opened Arith
  import opened DocTree
  import opened DocDiff
  import opened DocCredit

  // ---------- score, differences and shape ----------

  lemma {:induction false} LocalExact(a: Node, b: Node, path: seq<string>)
    ensures var r := Local(a, b, path);
      && r.matched <= r.total
      && (r.matched == r.total <==> r.diffs == [])
      && (r.diffs == [] <==> Key(a.own) == Key(b.own) && |a.children| == |b.children|)
  {
    var sa, sb := Significant(a.own.blocks), Significant(b.own.blocks);
    GreedyFull(sa, sb);
    LowerEmpty(a.own.prefix);
    LowerEmpty(b.own.prefix);
    hide Significant, Lower, Greedy;
  }

  lemma {:induction false} LowerEmpty(s: string)
    ensures Lower(s) == "" <==> s == ""
  {
    assert |Lower(s)| == |s|;
  }

  /** A tree with only what matters to the comparison. */
  function Abstract(n: Node): Node {
    Node(Key(n.own), seq(|n.children|, i requires 0 <= i < |n.children| => Abstract(n.children[i])))
  }

  predicate SameChildren(a: Node, b: Node, n: nat)
    requires n <= |a.children| && n <= |b.children|
  {
    forall i :: 0 <= i < n ==> Abstract(a.children[i]) == Abstract(b.children[i])
  }

  lemma {:induction false} AbstractSame(a: Node, b: Node)
    ensures Abstract(a) == Abstract(b) <==>
      Key(a.own) == Key(b.own) && |a.children| == |b.children| && SameChildren(a, b, Min(|a.children|, |b.children|))
  {
    hide Key;
    var x, y := Abstract(a), Abstract(b);
    if x == y {
      forall i | 0 <= i < |a.children| ensures Abstract(a.children[i]) == Abstract(b.children[i]) {
        assert x.children[i] == y.children[i];
      }
    }
    assert |a.children| == |b.children| && SameChildren(a, b, |a.children|) ==> x.children == y.children;
  }

  predicate Exact(r: Report, same: bool) {
    r.matched <= r.total && (r.matched == r.total <==> r.diffs == []) && (r.diffs == [] <==> same)
  }

  lemma {:induction false} ExactPlus(r: Report, s: Report, same: bool, alike: bool)
    requires Exact(r, same) && Exact(s, alike)
    ensures Exact(Plus(r, s), same && alike)
  {
  }

  /** For any two trees: the score never exceeds its maximum, and it is full exactly when no
      difference is reported, which is exactly when the trees agree on everything that matters. */
  lemma {:induction false} CompareExact(a: Node, b: Node, path: seq<string>)
    ensures Exact(Compare(a, b, path), Abstract(a) == Abstract(b))
    decreases a, |a.children| + 1
  {
    var here := path + [a.own.title];
    var n := Min(|a.children|, |b.children|);
    LocalExact(a, b, here);
    CompareChildrenExact(a, b, n, here);
    AbstractSame(a, b);
    ExactPlus(Local(a, b, here), CompareChildren(a, b, n, here),
              Key(a.own) == Key(b.own) && |a.children| == |b.children|, SameChildren(a, b, n));
  }

  lemma {:induction false} CompareChildrenExact(a: Node, b: Node, n: nat, path: seq<string>)
    requires n <= |a.children| && n <= |b.children|
    ensures Exact(CompareChildren(a, b, n, path), SameChildren(a, b, n))
    decreases a, n
  {
    if n > 0 {
      CompareChildrenExact(a, b, n - 1, path);
      CompareExact(a.children[n - 1], b.children[n - 1], path);
      ExactPlus(CompareChildren(a, b, n - 1, path), Compare(a.children[n - 1], b.children[n - 1], path),
                SameChildren(a, b, n - 1), Abstract(a.children[n - 1]) == Abstract(b.children[n - 1]));
      assert SameChildren(a, b, n) <==> SameChildren(a, b, n - 1) && Abstract(a.children[n - 1]) == Abstract(b.children[n - 1]);
    }
  }

  // ---------- flattened documents ----------

  function Keys(s: seq<Section>): seq<Section> {
    seq(|s|, i requires 0 <= i < |s| => Key(s[i]))
  }

  lemma {:induction false} KeysConcat(s: seq<Section>, t: seq<Section>)
    ensures Keys(s + t) == Keys(s) + Keys(t)
  {
  }

  function AbstractForest(cs: seq<Node>): seq<Node> {
    seq(|cs|, i requires 0 <= i < |cs| => Abstract(cs[i]))
  }

  lemma {:induction false} AbstractFlat(cs: seq<Node>)
    ensures FlatForest(AbstractForest(cs)) == Keys(FlatForest(cs))
  {
    if |cs| > 0 {
      var c := cs[0];
      AbstractFlat(c.children);
      AbstractFlat(cs[1..]);
      assert AbstractForest(cs)[1..] == AbstractForest(cs[1..]);
      assert Abstract(c).children == AbstractForest(c.children);
      hide Key;
      KeysConcat([c.own], FlatForest(c.children));
      KeysConcat(Flat(c), FlatForest(cs[1..]));
    }
  }

  lemma {:induction false} AbstractWf(n: Node)
    requires Wf(n)
    ensures Wf(Abstract(n))
    decreases n
  {
    assert WfForest(n.children, n.own.level);
    forall i | 0 <= i < |n.children| ensures Wf(Abstract(n.children[i])) {
      AbstractWf(n.children[i]);
    }
  }

  /** Two documents whose trees come from their flat lists have no tree differences, and the full
      score, exactly when those lists agree section by section on level, lowercased number and
      significant blocks. */
  lemma {:induction false} AlignedIff(ts: seq<Token>, us: seq<Token>, a: Node, b: Node, path: seq<string>)
    requires Wf(a) && Wf(b) && Flat(a) == Sections(ts) && Flat(b) == Sections(us)
    ensures Exact(Compare(a, b, path), Keys(Sections(ts)) == Keys(Sections(us)))
  {
    CompareExact(a, b, path);
    TreeKeys(a);
    TreeKeys(b);
    AbstractWf(a);
    AbstractWf(b);
    hide *;
    if Keys(Flat(a)) == Keys(Flat(b)) {
      TreeUnique(Abstract(a), Abstract(b));
    }
  }

  lemma {:induction false} TreeKeys(n: Node)
    ensures Flat(Abstract(n)) == Keys(Flat(n))
  {
    AbstractFlat(n.children);
    assert Abstract(n).children == AbstractForest(n.children);
    KeysConcat([n.own], FlatForest(n.children));
  }

  // ---------- collapsing does not matter ----------

  function PlainNext(s: seq<Section>, t: Token): (n: seq<Section>)
    requires |s| > 0
    ensures |n| > 0
  {
    match t
    case Heading(level, prefix, title) => s + [Section(level, prefix, title, [])]
    case Leaf(b) => s[|s| - 1 := s[|s| - 1].(blocks := s[|s| - 1].blocks + [b])]
  }

  /** The flat list without collapsing adjacent paragraphs and lists. */
  function Plain(ts: seq<Token>): (s: seq<Section>)
    ensures |s| > 0
  {
    if |ts| == 0 then [ROOT] else PlainNext(Plain(ts[..|ts| - 1]), ts[|ts| - 1])
  }

  lemma {:induction false} SignificantNext(bs: seq<Block>, b: Block)
    ensures Significant(bs + [b]) == Significant(bs) + (if IsSignificant(b) then [b] else [])
    ensures Significant(AddBlock(bs, b)) == Significant(bs) + (if IsSignificant(b) then [b] else [])
  {
    assert (bs + [b])[..|bs|] == bs;
  }

  lemma {:induction false} LeafKey(x: Section, y: Section, b: Block)
    requires Key(x) == Key(y)
    ensures Key(Extend(x, b)) == Key(y.(blocks := y.blocks + [b]))
  {
    SignificantNext(x.blocks, b);
    SignificantNext(y.blocks, b);
    hide Significant, AddBlock, Lower;
  }

  lemma {:induction false} NextKeys(s: seq<Section>, p: seq<Section>, t: Token)
    requires |s| > 0 && |p| > 0 && Keys(s) == Keys(p)
    ensures Keys(Next(s, t)) == Keys(PlainNext(p, t))
  {
    assert |Keys(s)| == |Keys(p)|;
    var x, y := s[|s| - 1], p[|p| - 1];
    assert Key(x) == Keys(s)[|s| - 1] == Keys(p)[|p| - 1] == Key(y);
    match t {
      case Heading(level, prefix, title) =>
        KeysConcat(s, [Section(level, prefix, title, [])]);
        KeysConcat(p, [Section(level, prefix, title, [])]);
      case Leaf(b) =>
        LeafKey(x, y, b);
        hide Key, Extend;
        assert Keys(Next(s, t)) == Keys(s)[|s| - 1 := Key(Extend(x, b))];
        assert Keys(PlainNext(p, t)) == Keys(p)[|p| - 1 := Key(y.(blocks := y.blocks + [b]))];
    }
  }

  /** The collapsed document and the plain one compare alike. */
  lemma {:induction false} CollapsingInvisible(ts: seq<Token>)
    ensures Keys(Sections(ts)) == Keys(Plain(ts))
  {
    if |ts| > 0 {
      CollapsingInvisible(ts[..|ts| - 1]);
      hide Key, Next, PlainNext;
      NextKeys(Sections(ts[..|ts| - 1]), Plain(ts[..|ts| - 1]), ts[|ts| - 1]);
    }
  }

  // ---------- points ----------

  /** What two sections lose of their points: two for the level, two for the numbering, two for every block of
      the longer list without credit, four for every child without a counterpart; each loss is reported. */
  lemma {:induction false} LocalLoses(a: Node, b: Node, path: seq<string>)
    ensures var r := Local(a, b, path);
      var sa, sb := Significant(a.own.blocks), Significant(b.own.blocks);
      var level, numbering := a.own.level != b.own.level, Lower(a.own.prefix) != Lower(b.own.prefix);
      && r.total - r.matched == (if level then 2 else 0) + (if numbering then 2 else 0)
           + 2 * (Max(|sa|, |sb|) - Greedy(sa, sb)) + 4 * (Max(|a.children|, |b.children|) - Min(|a.children|, |b.children|))
      && (Diff(path, LevelDiffers) in r.diffs <==> level) && (Diff(path, NumberingDiffers) in r.diffs <==> numbering)
      && (Diff(path, BlocksDiffer) in r.diffs <==> sa != sb)
      && (Diff(path, ChildCountDiffers) in r.diffs <==> |a.children| != |b.children|)
      && forall d :: d in r.diffs ==> d.path == path
  {
    var sa, sb := Significant(a.own.blocks), Significant(b.own.blocks);
    LowerEmpty(a.own.prefix);
    LowerEmpty(b.own.prefix);
    if sa == sb {
      Reflexive(sa);
      GreedyEmbedsIff(sa, sb);
    }
    hide Significant, Lower, Greedy, Subsequence;
  }

  /** Two points for a section, two for its number if it has one, two for each significant block. */
  function Points(s: Section): nat {
    2 + (if s.prefix != "" then 2 else 0) + 2 * |Significant(s.blocks)|
  }

  function AllPoints(s: seq<Section>): nat {
    if |s| == 0 then 0 else AllPoints(s[..|s| - 1]) + Points(s[|s| - 1])
  }

  lemma {:induction false} PointsConcat(s: seq<Section>, t: seq<Section>)
    ensures AllPoints(s + t) == AllPoints(s) + AllPoints(t)
  {
    hide Points;
    if |t| == 0 {
      assert s + t == s;
    } else {
      assert (s + t)[..|s + t| - 1] == s + t[..|t| - 1];
      PointsConcat(s, t[..|t| - 1]);
    }
  }

  lemma {:induction false} ForestLast(cs: seq<Node>)
    requires |cs| > 0
    ensures FlatForest(cs) == FlatForest(cs[..|cs| - 1]) + Flat(cs[|cs| - 1])
  {
    assert cs == cs[..|cs| - 1] + [cs[|cs| - 1]];
    ForestConcat(cs[..|cs| - 1], [cs[|cs| - 1]]);
    FlatOne(cs[|cs| - 1]);
    hide Flat, FlatForest;
  }

  /** The full score of a document against itself, said of its flat list: its sections' points, and four for
      every section under another. */
  lemma {:induction false} SelfScore(a: Node, path: seq<string>)
    ensures var r := Compare(a, a, path);
      r.total == r.matched == AllPoints(Flat(a)) + 4 * (|Flat(a)| - 1)
    decreases a, |a.children| + 1
  {
    var n := |a.children|;
    var here := path + [a.own.title];
    CompareExact(a, a, path);
    SelfChildren(a, n, here);
    assert a.children[..n] == a.children;
    PointsConcat([a.own], FlatForest(a.children));
    assert [a.own][..0] == [];
    assert AllPoints([a.own]) == Points(a.own);
    LowerEmpty(a.own.prefix);
    hide Significant, Greedy, Lower, AllPoints, FlatForest, CompareChildren;
  }

  lemma {:induction false} SelfChildren(a: Node, n: nat, path: seq<string>)
    requires n <= |a.children|
    ensures CompareChildren(a, a, n, path).total + 4 * n == AllPoints(FlatForest(a.children[..n])) + 4 * |FlatForest(a.children[..n])|
    decreases a, n
  {
    if n > 0 {
      assert a.children[..n][..n - 1] == a.children[..n - 1];
      hide AllPoints, FlatForest, Flat, Compare;
      SelfChildren(a, n - 1, path);
      SelfScore(a.children[n - 1], path);
      OneMoreChild(a.children[..n]);
    }
  }

  lemma {:induction false} OneMoreChild(cs: seq<Node>)
    requires |cs| > 0
    ensures var f, c := FlatForest(cs[..|cs| - 1]), Flat(cs[|cs| - 1]);
      AllPoints(FlatForest(cs)) == AllPoints(f) + AllPoints(c) && |FlatForest(cs)| == |f| + |c|
  {
    ForestLast(cs);
    PointsConcat(FlatForest(cs[..|cs| - 1]), Flat(cs[|cs| - 1]));
    hide AllPoints, FlatForest, Flat;
  }

  // ---------- what is compared ----------

  /** The same character, or the two cases of one ASCII letter. */
  predicate SameLetter(c: char, d: char) {
    c == d || ('A' <= c <= 'Z' && d as int == c as int + 32) || ('A' <= d <= 'Z' && c as int == d as int + 32)
  }

  /** Numbers agree in lower case exactly when they differ at most in the case of letters. */
  lemma {:induction false} LowerIff(s: string, t: string)
    ensures Lower(s) == Lower(t) <==> |s| == |t| && forall i :: 0 <= i < |s| ==> SameLetter(s[i], t[i])
  {
    forall i | 0 <= i < |s| && i < |t| ensures LowerChar(s[i]) == LowerChar(t[i]) <==> SameLetter(s[i], t[i]) {
    }
    if Lower(s) == Lower(t) {
      assert |Lower(s)| == |s| && |Lower(t)| == |t|;
      forall i | 0 <= i < |s| ensures LowerChar(s[i]) == LowerChar(t[i]) {
        assert Lower(s)[i] == Lower(t)[i];
      }
    }
    hide LowerChar, SameLetter;
  }

  /** Code, diagrams, images, tables and alerts count; lists and paragraphs do not. */
  predicate Counts(b: Block) {
    match b
    case Code(_) => true
    case Mermaid => true
    case Image => true
    case Table(_) => true
    case Alert(_) => true
    case ListBlock => false
    case Paragraph => false
  }

  /** The significant blocks of a section are exactly those that count, as often as they occur and in order. */
  lemma SignificantExact(bs: seq<Block>, b: Block)
    ensures multiset(Significant(bs))[b] == if Counts(b) then multiset(bs)[b] else 0
    ensures Subsequence(Significant(bs), bs)
  {
    SignificantCount(bs, b);
    SignificantInOrder(bs);
    hide Significant, Subsequence, Counts;
  }

  lemma {:induction false} SignificantCount(bs: seq<Block>, b: Block)
    ensures multiset(Significant(bs))[b] == if Counts(b) then multiset(bs)[b] else 0
  {
    if |bs| > 0 {
      var init, last := bs[..|bs| - 1], bs[|bs| - 1];
      SignificantCount(init, b);
      SignificantKinds(last);
      assert bs == init + [last];
      assert Significant(bs) == Significant(init) + if IsSignificant(last) then [last] else [];
      hide IsSignificant, Counts, Significant;
    }
  }

  lemma {:induction false} SignificantInOrder(bs: seq<Block>)
    ensures Subsequence(Significant(bs), bs)
  {
    if |bs| > 0 {
      var init, last := bs[..|bs| - 1], bs[|bs| - 1];
      SignificantInOrder(init);
      SubsequenceAppend(Significant(init), init, last);
      assert bs == init + [last];
      assert Significant(bs) == if IsSignificant(last) then Significant(init) + [last] else Significant(init);
      hide IsSignificant, Significant, Subsequence;
    }
  }

  lemma SignificantKinds(b: Block)
    ensures IsSignificant(b) == Counts(b)
  {
  }

  lemma {:induction false} SubsequenceAppend(x: seq<Block>, s: seq<Block>, b: Block)
    requires Subsequence(x, s)
    ensures Subsequence(x, s + [b]) && Subsequence(x + [b], s + [b])
  {
    if |s| == 0 {
      assert s + [b] == [b] && x + [b] == [b] && [b][1..] == [];
      assert Subsequence([], []) && Subsequence([], [b]);
    } else {
      assert (s + [b])[1..] == s[1..] + [b];
      if Subsequence(x, s[1..]) {
        SubsequenceAppend(x, s[1..], b);
      } else if |x| > 0 {
        SubsequenceAppend(x[1..], s[1..], b);
        assert (x + [b])[1..] == x[1..] + [b];
      }
    }
  }

  /** Every difference is reported under the titles on the way to it, from the section compared. */
  lemma {:induction false} ReportedBelow(a: Node, b: Node, path: seq<string>, d: Diff)
    requires d in Compare(a, b, path).diffs
    ensures path + [a.own.title] <= d.path
    decreases a, |a.children| + 1
  {
    var here := path + [a.own.title];
    var n := Min(|a.children|, |b.children|);
    if d in Local(a, b, here).diffs {
      LocalLoses(a, b, here);
    } else {
      ChildReported(a, b, n, here, d);
    }
    hide Local;
  }

  lemma {:induction false} ChildReported(a: Node, b: Node, n: nat, path: seq<string>, d: Diff)
    requires n <= |a.children| && n <= |b.children| && d in CompareChildren(a, b, n, path).diffs
    ensures path <= d.path && exists i: nat :: i < n && d in Compare(a.children[i], b.children[i], path).diffs
    decreases a, n
  {
    hide Compare;
    if n > 0 {
      if d in CompareChildren(a, b, n - 1, path).diffs {
        ChildReported(a, b, n - 1, path, d);
      } else {
        ReportedBelow(a.children[n - 1], b.children[n - 1], path, d);
      }
    }
  }
}
