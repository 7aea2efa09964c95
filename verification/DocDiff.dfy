/** The recursive comparison of two heading trees, its score, and exactly when they are aligned. */
module DocDiff {
  import opened Arith
  import opened DocTree

  datatype What = LevelDiffers | NumberingDiffers | BlocksDiffer | ChildCountDiffers

  /** A reported difference and the titles on the way to it. */
  datatype Diff = Diff(path: seq<string>, what: What)

  datatype Report = Report(matched: nat, total: nat, diffs: seq<Diff>)

  // ---------- what is compared ----------

  function LowerChar(c: char): char {
    if 'A' <= c <= 'Z' then c - 'A' + 'a' else c
  }

  function Lower(s: string): string {
    seq(|s|, i requires 0 <= i < |s| => LowerChar(s[i]))
  }

  predicate IsSignificant(b: Block) {
    !b.ListBlock? && !b.Paragraph?
  }

  /** The significant blocks; each is its own signature. */
  function Significant(bs: seq<Block>): seq<Block> {
    if |bs| == 0 then []
    else Significant(bs[..|bs| - 1]) + (if IsSignificant(bs[|bs| - 1]) then [bs[|bs| - 1]] else [])
  }

  /** What of a section matters to the comparison. */
  function Key(s: Section): Section {
    Section(s.level, Lower(s.prefix), "", Significant(s.blocks))
  }

  // ---------- the score ----------

  /** Partial credit: a single greedy pass over both block lists. */
  function Greedy(s: seq<Block>, t: seq<Block>): (k: nat)
    ensures k <= |s| && k <= |t|
    decreases |s| + |t|
  {
    if |s| == 0 || |t| == 0 then 0
    else if s[0] == t[0] then 1 + Greedy(s[1..], t[1..])
    else if s[0] in t then Greedy(s, t[1..])
    else Greedy(s[1..], t)
  }

  /** The part of the report about the two sections themselves. */
  function Local(a: Node, b: Node, path: seq<string>): Report {
    var sa, sb := Significant(a.own.blocks), Significant(b.own.blocks);
    var level := a.own.level == b.own.level;
    var numbered := a.own.prefix != "" || b.own.prefix != "";
    var numbering := Lower(a.own.prefix) == Lower(b.own.prefix);
    var n, m := |a.children|, |b.children|;
    Report(
      (if level then 2 else 0) + (if numbered && numbering then 2 else 0)
      + (if sa == sb then Max(|sa|, |sb|) * 2 else Greedy(sa, sb) * 2) + Min(n, m) * 4,
      2 + (if numbered then 2 else 0) + Max(|sa|, |sb|) * 2 + Max(n, m) * 4,
      (if level then [] else [Diff(path, LevelDiffers)])
      + (if numbered && !numbering then [Diff(path, NumberingDiffers)] else [])
      + (if sa == sb then [] else [Diff(path, BlocksDiffer)])
      + (if n == m then [] else [Diff(path, ChildCountDiffers)]))
  }

  function Plus(r: Report, s: Report): Report {
    Report(r.matched + s.matched, r.total + s.total, r.diffs + s.diffs)
  }

  function Compare(a: Node, b: Node, path: seq<string>): Report
    decreases a, |a.children| + 1
  {
    var here := path + [a.own.title];
    Plus(Local(a, b, here), CompareChildren(a, b, Min(|a.children|, |b.children|), here))
  }

  /** The first n pairs of children, in order. */
  function CompareChildren(a: Node, b: Node, n: nat, path: seq<string>): Report
    requires n <= |a.children| && n <= |b.children|
    decreases a, n
  {
    if n == 0 then Report(0, 0, [])
    else Plus(CompareChildren(a, b, n - 1, path), Compare(a.children[n - 1], b.children[n - 1], path))
  }

  method GreedyMatch(s: seq<Block>, t: seq<Block>) returns (k: nat)
    ensures k == Greedy(s, t)
  {
    k := 0;
    var i, j := 0, 0;
    while i < |s| && j < |t|
      invariant i <= |s| && j <= |t| && k + Greedy(s[i..], t[j..]) == Greedy(s, t)
      decreases |s| - i + |t| - j
    {
      assert s[i..][1..] == s[i + 1..] && t[j..][1..] == t[j + 1..];
      if s[i] == t[j] {
        k := k + 1;
        i := i + 1;
        j := j + 1;
      } else if s[i] in t[j..] {
        j := j + 1;
      } else {
        i := i + 1;
      }
    }
  }

  lemma {:induction false} PlusAssociative(r: Report, s: Report, t: Report)
    ensures Plus(Plus(r, s), t) == Plus(r, Plus(s, t))
  {
  }

  /** The first three steps of the script: level and numbering, blocks, number of children. */
  method LocalInto(a: Node, b: Node, before: seq<Diff>, here: seq<string>) returns (matched: nat, total: nat, diffs: seq<Diff>)
    ensures Report(matched, total, diffs) == Plus(Report(0, 0, before), Local(a, b, here))
  {
    matched, total, diffs := 0, 2, [];
    if a.own.level == b.own.level {
      matched := matched + 2;
    } else {
      diffs := diffs + [Diff(here, LevelDiffers)];
    }
    if a.own.prefix != "" || b.own.prefix != "" {
      total := total + 2;
      if Lower(a.own.prefix) == Lower(b.own.prefix) {
        matched := matched + 2;
      } else {
        diffs := diffs + [Diff(here, NumberingDiffers)];
      }
    }
    var sa, sb := Significant(a.own.blocks), Significant(b.own.blocks);
    hide Significant, Lower, Greedy;
    var points := Max(|sa|, |sb|) * 2;
    total := total + points;
    if sa == sb {
      matched := matched + points;
    } else {
      diffs := diffs + [Diff(here, BlocksDiffer)];
      var k := GreedyMatch(sa, sb);
      matched := matched + k * 2;
    }
    var n, m := |a.children|, |b.children|;
    total := total + Max(n, m) * 4;
    if n != m {
      diffs := diffs + [Diff(here, ChildCountDiffers)];
      matched := matched + Min(n, m) * 4;
    } else {
      matched := matched + Max(n, m) * 4;
    }
    diffs := before + diffs;
  }

  /** As the script does it: two accumulators, and a list of differences that every call appends to. */
  method CompareInto(a: Node, b: Node, before: seq<Diff>, path: seq<string>) returns (matched: nat, total: nat, diffs: seq<Diff>)
    ensures Report(matched, total, diffs) == Plus(Report(0, 0, before), Compare(a, b, path))
    decreases a
  {
    var here := path + [a.own.title];
    matched, total, diffs := LocalInto(a, b, before, here);
    ghost var start, local := Report(0, 0, before), Local(a, b, here);
    var n := Min(|a.children|, |b.children|);
    PlusAssociative(start, local, CompareChildren(a, b, n, here));
    assert Compare(a, b, path) == Plus(local, CompareChildren(a, b, n, here));
    hide Local, Compare, Plus;
    assert Plus(Plus(start, local), CompareChildren(a, b, 0, here)) == Plus(start, local) by { PlusNothing(Plus(start, local)); }
    for i := 0 to n
      invariant Report(matched, total, diffs) == Plus(Plus(start, local), CompareChildren(a, b, i, here))
    {
      ghost var soFar := diffs;
      var dm, dt;
      dm, dt, diffs := CompareInto(a.children[i], b.children[i], diffs, here);
      ghost var child := Compare(a.children[i], b.children[i], here);
      PlusAfter(matched, total, soFar, child);
      PlusAssociative(Plus(start, local), CompareChildren(a, b, i, here), child);
      matched, total := matched + dm, total + dt;
    }
  }

  lemma {:induction false} PlusNothing(r: Report)
    ensures Plus(r, Report(0, 0, [])) == r
  {
  }

  lemma {:induction false} PlusAfter(matched: nat, total: nat, soFar: seq<Diff>, child: Report)
    ensures var p := Plus(Report(0, 0, soFar), child);
      Plus(Report(matched, total, soFar), child) == Report(matched + p.matched, total + p.total, p.diffs)
  {
  }
}
