/** The partial credit for two block lists: one greedy pass, which the script takes for the longest
    common subsequence, and exactly how far that is right. */
module DocCredit {
  import opened Arith
  import opened DocTree
  import opened DocDiff

  /** Full credit is given to equal lists only. */
  lemma {:induction false} GreedyFull(s: seq<Block>, t: seq<Block>)
    ensures Greedy(s, t) == Max(|s|, |t|) ==> s == t
    decreases |s| + |t|
  {
    if |s| > 0 && |t| > 0 && s[0] == t[0] {
      GreedyFull(s[1..], t[1..]);
      assert s == [s[0]] + s[1..] && t == [t[0]] + t[1..];
    }
  }

  /** x can be read off s in order. */
  predicate Subsequence(x: seq<Block>, s: seq<Block>)
    decreases |s|
  {
    if |x| == 0 then true
    else if |s| == 0 then false
    else Subsequence(x, s[1..]) || (x[0] == s[0] && Subsequence(x[1..], s[1..]))
  }

  /** The credit is the length of a common subsequence. */
  lemma {:induction false} GreedyIsCommon(s: seq<Block>, t: seq<Block>) returns (x: seq<Block>)
    ensures |x| == Greedy(s, t) && Subsequence(x, s) && Subsequence(x, t)
    decreases |s| + |t|
  {
    if |s| == 0 || |t| == 0 {
      x := [];
    } else if s[0] == t[0] {
      var y := GreedyIsCommon(s[1..], t[1..]);
      x := [s[0]] + y;
      assert x[1..] == y;
    } else if s[0] in t {
      x := GreedyIsCommon(s, t[1..]);
    } else {
      x := GreedyIsCommon(s[1..], t);
    }
  }

  /** But not always of a longest one, although the script calls it that. */
  lemma {:induction false} GreedyNotLongest()
    ensures var s, t := [Image, Mermaid, Table(2)], [Mermaid, Table(2), Image];
      Greedy(s, t) == 1 && Subsequence([Mermaid, Table(2)], s) && Subsequence([Mermaid, Table(2)], t)
  {
    var s, t := [Image, Mermaid, Table(2)], [Mermaid, Table(2), Image];
    assert t[1..] == [Table(2), Image] && t[1..][1..] == [Image] && t[1..][1..][1..] == [];
    assert s[1..] == [Mermaid, Table(2)] && s[1..][1..] == [Table(2)] && s[1..][1..][1..] == [];
    assert Greedy([Mermaid, Table(2)], []) == 0;
    assert Greedy(s, [Image]) == 1;
    assert Greedy(s, [Table(2), Image]) == 1;
    var x := [Mermaid, Table(2)];
    assert x[1..] == [Table(2)] && x[1..][1..] == [];
    assert Subsequence([], []) && Subsequence([Table(2)], [Table(2)]);
    assert Subsequence(x, s[1..]);
    assert Subsequence([], [Image]) && Subsequence([Table(2)], [Table(2), Image]);
  }

  // ---------- when it is the longest ----------

  /** No common subsequence is longer than the credit. */
  ghost predicate Longest(s: seq<Block>, t: seq<Block>) {
    forall x :: Subsequence(x, s) && Subsequence(x, t) ==> |x| <= Greedy(s, t)
  }

  lemma {:induction false} SubsequenceRest(x: seq<Block>, s: seq<Block>)
    requires |x| > 0 && Subsequence(x, s)
    ensures |s| > 0 && Subsequence(x[1..], s) && Subsequence(x[1..], s[1..])
    decreases |s|
  {
    if Subsequence(x, s[1..]) {
      SubsequenceRest(x, s[1..]);
    }
  }

  lemma {:induction false} SubsequenceSmaller(x: seq<Block>, s: seq<Block>)
    requires Subsequence(x, s)
    ensures |x| <= |s| && forall b :: b in x ==> b in s
    decreases |s|
  {
    if |x| > 0 {
      if Subsequence(x, s[1..]) {
        SubsequenceSmaller(x, s[1..]);
      } else {
        SubsequenceSmaller(x[1..], s[1..]);
        assert x == [x[0]] + x[1..];
      }
    }
  }

  lemma {:induction false} Reflexive(s: seq<Block>)
    ensures Subsequence(s, s)
  {
    if |s| > 0 {
      Reflexive(s[1..]);
    }
  }

  /** The credit is the whole source list exactly when the source embeds in the target. */
  lemma {:induction false} GreedyEmbedsIff(s: seq<Block>, t: seq<Block>)
    ensures Greedy(s, t) == |s| <==> Subsequence(s, t)
    decreases |s| + |t|
  {
    if |s| > 0 && |t| > 0 {
      if s[0] == t[0] {
        GreedyEmbedsIff(s[1..], t[1..]);
        if Subsequence(s, t) {
          SubsequenceRest(s, t);
        }
      } else if s[0] in t {
        GreedyEmbedsIff(s, t[1..]);
      } else if Subsequence(s, t) {
        SubsequenceSmaller(s, t);
      }
    }
  }

  /** So it is longest then. */
  lemma EmbeddedIsLongest(s: seq<Block>, t: seq<Block>)
    requires Subsequence(s, t)
    ensures Longest(s, t)
  {
    GreedyEmbedsIff(s, t);
    forall x | Subsequence(x, s) && Subsequence(x, t) ensures |x| <= Greedy(s, t) {
      SubsequenceSmaller(x, s);
    }
    hide Subsequence, Greedy;
  }

  /** The other way round is not enough: here the target embeds in the source, and earns half credit. */
  lemma {:induction false} TargetEmbeddedIsNotEnough()
    ensures var s, t := [Table(2), Mermaid, Table(2)], [Mermaid, Table(2)];
      Subsequence(t, s) && Greedy(s, t) == 1
  {
    var s, t := [Table(2), Mermaid, Table(2)], [Mermaid, Table(2)];
    assert s[1..] == t && t[1..] == [Table(2)];
    Reflexive(t);
    assert Greedy(s, t[1..]) == 1 + Greedy(s[1..], t[1..][1..]);
  }

  // ---------- the three moves of the pass ----------

  /** Matching equal heads loses nothing. */
  lemma HeadsMatch(s: seq<Block>, t: seq<Block>)
    requires |s| > 0 && |t| > 0 && s[0] == t[0] && Longest(s[1..], t[1..])
    ensures Longest(s, t)
  {
    forall x | Subsequence(x, s) && Subsequence(x, t) ensures |x| <= Greedy(s, t) {
      if |x| > 0 {
        SubsequenceRest(x, s);
        SubsequenceRest(x, t);
      }
    }
  }

  /** Nor does giving up a source block that the target no longer has. */
  lemma SourceSkipped(s: seq<Block>, t: seq<Block>)
    requires |s| > 0 && s[0] !in t && Longest(s[1..], t)
    ensures Longest(s, t)
  {
    forall x | Subsequence(x, s) && Subsequence(x, t) ensures |x| <= Greedy(s, t) {
      SubsequenceSmaller(x, t);
    }
  }

  /** Skipping a target block does not either, if every common subsequence that starts with it is
      matched by one of the rest. */
  lemma TargetSkipped(s: seq<Block>, t: seq<Block>)
    requires |s| > 0 && |t| > 0 && s[0] != t[0] && s[0] in t && Longest(s, t[1..])
    requires forall x :: Subsequence(x, s) && Subsequence(x, t) && |x| > 0 && x[0] == t[0] ==> |x| <= Greedy(s, t[1..])
    ensures Longest(s, t)
  {
  }

  lemma TargetUnneeded(s: seq<Block>, t: seq<Block>)
    requires |s| > 0 && |t| > 0 && s[0] != t[0] && s[0] in t && Longest(s, t[1..]) && t[0] !in s
    ensures Longest(s, t)
  {
    forall x | Subsequence(x, s) && Subsequence(x, t) ensures |x| <= Greedy(s, t) {
      SubsequenceSmaller(x, s);
    }
  }

  /** Guard of the one move that can lose: a target block is only skipped if the source has no more of it. */
  predicate SkipsUnneeded(s: seq<Block>, t: seq<Block>)
    decreases |s| + |t|
  {
    |s| == 0 || |t| == 0 ||
    if s[0] == t[0] then SkipsUnneeded(s[1..], t[1..])
    else if s[0] in t then t[0] !in s && SkipsUnneeded(s, t[1..])
    else SkipsUnneeded(s[1..], t)
  }

  lemma {:induction false} UnneededIsLongest(s: seq<Block>, t: seq<Block>)
    requires SkipsUnneeded(s, t)
    ensures Longest(s, t)
    decreases |s| + |t|
  {
    if |s| == 0 || |t| == 0 {
      EmptyLongest(s, t);
    } else {
      hide Subsequence, Greedy, Longest;
      if s[0] == t[0] {
        UnneededIsLongest(s[1..], t[1..]);
        HeadsMatch(s, t);
      } else if s[0] in t {
        UnneededIsLongest(s, t[1..]);
        TargetUnneeded(s, t);
      } else {
        UnneededIsLongest(s[1..], t);
        SourceSkipped(s, t);
      }
    }
  }

  lemma EmptyLongest(s: seq<Block>, t: seq<Block>)
    requires |s| == 0 || |t| == 0
    ensures Longest(s, t)
  {
    forall x | Subsequence(x, s) && Subsequence(x, t) ensures |x| <= Greedy(s, t) {
      SubsequenceSmaller(x, s);
      SubsequenceSmaller(x, t);
    }
  }

  // ---------- exactly, for a target and for a source ----------

  predicate Uniform(s: seq<Block>) {
    forall i :: 0 <= i < |s| ==> s[i] == s[0]
  }

  lemma {:induction false} UniformSkips(s: seq<Block>, t: seq<Block>)
    requires Uniform(t)
    ensures SkipsUnneeded(s, t)
    decreases |s| + |t|
  {
    if |s| > 0 && |t| > 0 {
      if s[0] == t[0] {
        assert Uniform(t[1..]) by {
          forall i | 0 <= i < |t| - 1 ensures t[1..][i] == t[1..][0] {
            assert t[i + 1] == t[0] && t[1] == t[0];
          }
        }
        UniformSkips(s[1..], t[1..]);
      } else {
        UniformSkips(s[1..], t);
      }
    }
  }

  /** Put a later, different block of the target in front of it: the pass skips to that block. */
  lemma Misled(t: seq<Block>, k: nat)
    requires k < |t| && t[k] != t[0]
    ensures !Longest([t[k]] + t, t)
  {
    var s := [t[k]] + t;
    assert s[1..] == t;
    Reflexive(t);
    assert Subsequence(t, s);
    assert Greedy(s, t) == Greedy(s, t[1..]);
    hide Subsequence, Greedy;
  }

  /** For a target list, the credit is longest whatever the source exactly when its blocks are all alike. */
  lemma LongestForTargetIff(t: seq<Block>)
    ensures (forall s :: Longest(s, t)) <==> Uniform(t)
  {
    hide Longest, SkipsUnneeded;
    if Uniform(t) {
      forall s ensures Longest(s, t) {
        UniformSkips(s, t);
        UnneededIsLongest(s, t);
      }
    } else {
      var k :| 0 <= k < |t| && t[k] != t[0];
      Misled(t, k);
    }
  }

  lemma {:induction false} UniformSource(s: seq<Block>, t: seq<Block>)
    requires |s| > 0 ==> Uniform(s[..|s| - 1])
    ensures Longest(s, t)
    decreases |s| + |t|
  {
    if |s| == 0 || |t| == 0 {
      EmptyLongest(s, t);
    } else {
      hide Longest, Greedy, Subsequence, Uniform;
      if s[0] == t[0] {
        UniformFront(s);
        UniformSource(s[1..], t[1..]);
        HeadsMatch(s, t);
      } else if s[0] in t {
        UniformSource(s, t[1..]);
        forall x | Subsequence(x, s) && Subsequence(x, t) && |x| > 0 && x[0] == t[0] ensures |x| <= Greedy(s, t[1..]) {
          OnlyLast(s, x);
          OneIsPaid(s, t[1..]);
        }
        TargetSkipped(s, t);
      } else {
        UniformFront(s);
        UniformSource(s[1..], t);
        SourceSkipped(s, t);
      }
    }
  }

  lemma UniformFront(s: seq<Block>)
    requires |s| > 0 && Uniform(s[..|s| - 1])
    ensures |s| > 1 ==> Uniform(s[1..][..|s| - 2])
  {
    if |s| > 1 {
      var u, w := s[..|s| - 1], s[1..][..|s| - 2];
      forall i | 0 <= i < |w| ensures w[i] == w[0] {
        assert u[i + 1] == u[0] && u[1] == u[0];
      }
    }
  }

  /** What starts with another block than the uniform front is the last block alone. */
  lemma {:induction false} OnlyLast(s: seq<Block>, x: seq<Block>)
    requires |s| > 0 && Uniform(s[..|s| - 1]) && Subsequence(x, s) && |x| > 0 && x[0] != s[0]
    ensures |x| <= 1
    decreases |s|
  {
    UniformFront(s);
    if |s| > 2 {
      assert s[..|s| - 1][1] == s[..|s| - 1][0];
      OnlyLast(s[1..], x);
    } else {
      SubsequenceSmaller(x, s[1..]);
    }
  }

  /** A block that both lists have earns some credit. */
  lemma {:induction false} OneIsPaid(s: seq<Block>, t: seq<Block>)
    requires |s| > 0 && s[0] in t
    ensures Greedy(s, t) >= 1
    decreases |t|
  {
    if s[0] != t[0] {
      OneIsPaid(s, t[1..]);
    }
  }

  /** The pass runs to the only occurrence at the end. */
  lemma {:induction false} RunsToTheEnd(s: seq<Block>, u: seq<Block>)
    requires |s| > 0 && s[0] !in u
    ensures Greedy(s, u + [s[0]]) <= 1
    decreases |u|
  {
    var t := u + [s[0]];
    if |u| > 0 {
      assert t[1..] == u[1..] + [s[0]];
      assert s[0] == t[|u|];
      RunsToTheEnd(s, u[1..]);
    }
  }

  lemma {:induction false} SuffixEmbeds(s: seq<Block>, i: nat)
    requires i <= |s|
    ensures Subsequence(s[i..], s)
    decreases i
  {
    if i == 0 {
      assert s[0..] == s;
      Reflexive(s);
    } else {
      SuffixEmbeds(s[1..], i - 1);
      assert s[1..][i - 1..] == s[i..];
    }
  }

  lemma {:induction false} PrefixEmbeds(s: seq<Block>, t: seq<Block>)
    ensures Subsequence(s, s + t)
  {
    if |s| > 0 {
      PrefixEmbeds(s[1..], t);
      assert (s + t)[1..] == s[1..] + t;
    }
  }

  /** A different block before the last: a target that starts there misleads the pass. */
  lemma Lured(s: seq<Block>, i: nat) returns (t: seq<Block>)
    requires 0 < i < |s| - 1 && s[i] != s[0]
    ensures !Longest(s, t)
  {
    var u := s[i..];
    SuffixEmbeds(s, i);
    if s[0] in u {
      t := u;
      Reflexive(u);
      assert Greedy(s, u) == Greedy(s, u[1..]);
    } else {
      t := u + [s[0]];
      PrefixEmbeds(u, [s[0]]);
      RunsToTheEnd(s, u);
    }
    hide Subsequence, Greedy;
    assert Subsequence(u, s) && Subsequence(u, t) && |u| > Greedy(s, t);
  }

  /** For a source list, the credit is longest whatever the target exactly when its blocks before the
      last are all alike. */
  lemma LongestForSourceIff(s: seq<Block>)
    ensures (forall t :: Longest(s, t)) <==> (|s| == 0 || Uniform(s[..|s| - 1]))
  {
    hide Longest;
    if |s| == 0 || Uniform(s[..|s| - 1]) {
      forall t ensures Longest(s, t) {
        UniformSource(s, t);
      }
    } else {
      var k :| 0 <= k < |s| - 1 && s[k] != s[0];
      var t := Lured(s, k);
    }
  }
}
