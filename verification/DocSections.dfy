/** The flat document: its sections are the headings, in order, and each has the blocks between its heading
    and the next one, where a paragraph or list directly after an equal one is dropped. */
module DocSections {
  import opened DocTree

  function Headings(ts: seq<Token>): seq<Token> {
    if |ts| == 0 then [] else Headings(ts[..|ts| - 1]) + (if ts[|ts| - 1].Heading? then [ts[|ts| - 1]] else [])
  }

  /** The blocks after the k-th heading and before the next one; before the first one for k = 0. */
  function Under(ts: seq<Token>, k: nat): seq<Block> {
    if |ts| == 0 then []
    else
      var init, t := ts[..|ts| - 1], ts[|ts| - 1];
      Under(init, k) + (if t.Leaf? && |Headings(init)| == k then [t.block] else [])
  }

  /** Without the paragraphs and lists that directly follow an equal block. */
  function Destuttered(bs: seq<Block>): seq<Block> {
    if |bs| == 0 then []
    else
      var n := |bs| - 1;
      var repeated := n > 0 && bs[n - 1] == bs[n] && (bs[n].Paragraph? || bs[n].ListBlock?);
      Destuttered(bs[..n]) + (if repeated then [] else [bs[n]])
  }

  lemma {:induction false} LastStays(bs: seq<Block>)
    requires |bs| > 0
    ensures |Destuttered(bs)| > 0 && Destuttered(bs)[|Destuttered(bs)| - 1] == bs[|bs| - 1]
  {
    if |bs| > 1 {
      LastStays(bs[..|bs| - 1]);
    }
  }

  lemma {:induction false} DestutteredNext(bs: seq<Block>, b: Block)
    ensures Destuttered(bs + [b]) == AddBlock(Destuttered(bs), b)
  {
    assert (bs + [b])[..|bs|] == bs;
    if |bs| > 0 {
      LastStays(bs);
    }
  }

  lemma {:induction false} NothingLater(ts: seq<Token>, k: nat)
    requires k > |Headings(ts)|
    ensures Under(ts, k) == []
  {
    if |ts| > 0 {
      NothingLater(ts[..|ts| - 1], k);
    }
  }

  predicate SectionIs(s: Section, h: Token) {
    h.Heading? && s.level == h.level && s.prefix == h.prefix && s.title == h.title
  }

  predicate Exact(s: seq<Section>, ts: seq<Token>) {
    var hs := Headings(ts);
    && |s| == |hs| + 1 && s[0].level == 0 && s[0].prefix == "" && s[0].title == "DOCUMENT_ROOT"
    && (forall k :: 0 <= k < |hs| ==> SectionIs(s[k + 1], hs[k]))
    && forall k :: 0 <= k < |s| ==> s[k].blocks == Destuttered(Under(ts, k))
  }

  lemma {:induction false} HeadingsNext(ts: seq<Token>, t: Token)
    ensures Headings(ts + [t]) == if t.Heading? then Headings(ts) + [t] else Headings(ts)
  {
    assert (ts + [t])[..|ts|] == ts;
  }

  lemma {:induction false} UnderNext(ts: seq<Token>, t: Token, k: nat)
    ensures Under(ts + [t], k) == if t.Leaf? && |Headings(ts)| == k then Under(ts, k) + [t.block] else Under(ts, k)
  {
    assert (ts + [t])[..|ts|] == ts;
    hide Headings;
  }

  /** A heading keeps every section and adds its own, still empty. */
  lemma {:induction false} HeadingSections(s: seq<Section>, ts: seq<Token>, t: Token, k: nat)
    requires Exact(s, ts) && t.Heading? && k <= |s|
    ensures |Next(s, t)| == |s| + 1 && Next(s, t)[k].blocks == Destuttered(Under(ts + [t], k))
    ensures Next(s, t)[k] == if k < |s| then s[k] else Section(t.level, t.prefix, t.title, [])
    ensures 0 < k < |s| ==> SectionIs(s[k], Headings(ts)[k - 1])
  {
    UnderNext(ts, t, k);
    if k < |s| {
      assert s[k].blocks == Destuttered(Under(ts, k));
      assert k > 0 ==> SectionIs(s[k - 1 + 1], Headings(ts)[k - 1]);
    } else {
      NothingLater(ts, k);
      assert Destuttered([]) == [];
    }
    hide Headings, Under, Destuttered, Exact;
  }

  lemma {:induction false} ExactHeading(s: seq<Section>, ts: seq<Token>, t: Token)
    requires Exact(s, ts) && t.Heading?
    ensures Exact(Next(s, t), ts + [t])
  {
    var n, hs := Next(s, t), Headings(ts + [t]);
    HeadingsNext(ts, t);
    HeadingSections(s, ts, t, 0);
    HeadingSections(s, ts, t, |s|);
    hide Headings, Under, Destuttered, Next;
    forall k: nat | k <= |s| ensures n[k].blocks == Destuttered(Under(ts + [t], k)) {
      HeadingSections(s, ts, t, k);
    }
    forall k: nat | k < |s| ensures SectionIs(n[k + 1], hs[k]) {
      HeadingSections(s, ts, t, k + 1);
    }
  }

  /** A block changes the blocks of the last section only. */
  lemma {:induction false} LeafKeeps(s: seq<Section>, t: Token, k: nat)
    requires k < |s| && t.Leaf?
    ensures var n := Next(s, t);
      && |n| == |s| && n[k].level == s[k].level && n[k].prefix == s[k].prefix && n[k].title == s[k].title
      && n[k].blocks == if k == |s| - 1 then AddBlock(s[k].blocks, t.block) else s[k].blocks
  {
  }

  lemma {:induction false} LeafSections(s: seq<Section>, ts: seq<Token>, t: Token, k: nat)
    requires Exact(s, ts) && t.Leaf? && k < |s|
    ensures |Next(s, t)| == |s| && Next(s, t)[k].blocks == Destuttered(Under(ts + [t], k))
    ensures k > 0 ==> SectionIs(Next(s, t)[k], Headings(ts)[k - 1])
  {
    LeafKeeps(s, t, k);
    UnderNext(ts, t, k);
    DestutteredNext(Under(ts, k), t.block);
    assert s[k].blocks == Destuttered(Under(ts, k));
    assert k > 0 ==> SectionIs(s[k - 1 + 1], Headings(ts)[k - 1]);
    hide Headings, Under, Destuttered, AddBlock, Next, Exact;
  }

  lemma {:induction false} ExactLeaf(s: seq<Section>, ts: seq<Token>, t: Token)
    requires Exact(s, ts) && t.Leaf?
    ensures Exact(Next(s, t), ts + [t])
  {
    var n := Next(s, t);
    HeadingsNext(ts, t);
    LeafKeeps(s, t, 0);
    hide Headings, Under, Destuttered, Next, SectionIs;
    forall k: nat | k < |s| ensures |n| == |s| && n[k].blocks == Destuttered(Under(ts + [t], k)) {
      LeafSections(s, ts, t, k);
    }
    forall k: nat | k < |s| - 1 ensures SectionIs(n[k + 1], Headings(ts + [t])[k]) {
      LeafSections(s, ts, t, k + 1);
    }
  }

  /** Section 0 is the document itself, above every heading; section k is the k-th heading with its blocks. */
  lemma {:induction false} SectionsExact(ts: seq<Token>)
    ensures Exact(Sections(ts), ts)
  {
    if |ts| > 0 {
      var init, t := ts[..|ts| - 1], ts[|ts| - 1];
      assert Sections(ts) == Next(Sections(init), t);
      hide *;
      SectionsExact(init);
      assert init + [t] == ts;
      if t.Heading? {
        ExactHeading(Sections(init), init, t);
      } else {
        ExactLeaf(Sections(init), init, t);
      }
    }
  }
}
