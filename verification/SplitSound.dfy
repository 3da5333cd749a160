/** What the page tables built by the splits satisfy: the tree invariant, the leaf chain and the index
    ranges (src/core/LeafPage.cpp:423-663, src/core/BranchPage.cpp:233-408). */
module SplitSound {
  import opened KeyOrder
  import opened GreedySplit
  import opened PageIds
  import opened Pages
  import opened Search
  import opened LeafCuts
  import opened TreeInv
  import opened TreeSplit
  import opened TreePieces
  import opened LeafChain
  import opened Ranges
  import opened SplitBuild

  // ---------- the bounds after a split ----------

  ghost function IndexIn(ids: seq<PageId>, x: PageId): (j: nat)
    requires x in ids
    ensures j < |ids| && ids[j] == x
  {
    var j :| 0 <= j < |ids| && ids[j] == x; j
  }

  /** The range of the split page handed out to the pieces. */
  ghost function Handed(b: Bounds, ids: seq<PageId>, es: seq<Entry>): Bounds
    requires |ids| == |es| > 0 && ids[0] in b
  {
    map x | x in b.Keys + Elems(ids) :: if x in ids then ChildRange(es, b[ids[0]], IndexIn(ids, x)) else b[x]
  }

  lemma HandedOk(b: Bounds, ids: seq<PageId>, es: seq<Entry>)
    requires |ids| == |es| > 0 && ids[0] in b && Distinct(ids)
    ensures Rebounded(b, Handed(b, ids, es), ids, es)
  {
    hide ChildRange;
    var b' := Handed(b, ids, es);
    forall j | 0 <= j < |ids| ensures b'[ids[j]] == ChildRange(es, b[ids[0]], j) {
      assert ids[j] in ids;
      assert IndexIn(ids, ids[j]) == j;
    }
  }

  // ---------- leaf splits ----------

  /** The i-th entry of q is the one of page ids[0], and the other ids are new. */
  ghost predicate OwnEntry(t: Tree, q: PageId, i: nat, ids: seq<PageId>, es: seq<Entry>) {
    && IsBranch(t, q) && i < |t.pages[q].entries|
    && |ids| == |es| > 0 && Distinct(ids)
    && ids[0] in t.pages && ids[0] == t.pages[q].entries[i].child
    && (forall j :: 1 <= j < |ids| ==> ids[j] !in t.pages)
    && (forall j :: 0 <= j < |es| ==> es[j].child == ids[j])
  }

  lemma OwnEntryApart(t: Tree, b: Bounds, q: PageId, i: nat, ids: seq<PageId>, es: seq<Entry>)
    requires Inv(t, b) && OwnEntry(t, q, i, ids, es)
    ensures q !in ids && ids[0] in b && t.pages[ids[0]].parent == Some(q)
    ensures b[ids[0]] == ChildRange(t.pages[q].entries, b[q], i)
  {
    hide ContentOk, ChildRange;
    Kid(t, b, q, i);
    NotItself(t, b, q, i, ids);
  }

  ghost predicate LeafSplitOf(t: Tree, m': PageTable, q: PageId, i: nat, ids: seq<PageId>, es: seq<Entry>,
                              live: seq<Rec>, cuts: seq<nat>, clens: seq<int>, tlens: seq<int>) {
    && OwnEntry(t, q, i, ids, es) && t.pages[ids[0]].Leaf?
    && Shape(cuts, |live|, ids) && |clens| == |tlens| == |ids|
    && LeafSplitDone(t.pages, m', q, i, ids, es, live, cuts, clens, tlens)
  }

  lemma LeafReplaced(t: Tree, b: Bounds, m': PageTable, q: PageId, i: nat, ids: seq<PageId>, es: seq<Entry>,
                     live: seq<Rec>, cuts: seq<nat>, clens: seq<int>, tlens: seq<int>)
    requires Inv(t, b) && LeafSplitOf(t, m', q, i, ids, es, live, cuts, clens, tlens)
    ensures Replaced(t, Tree(m', t.root, t.unique), q, i, ids, es)
  {
    hide Splice, ELens, ContentOk, ChildRange;
    OwnEntryApart(t, b, q, i, ids, es);
    var t' := Tree(m', t.root, t.unique);
    var top := t.pages[ids[0]];
    forall j | 0 <= j < |ids|
      ensures t'.pages[ids[j]].parent == Some(q) && t'.pages[ids[j]].Leaf?
      ensures t'.pages[ids[j]].end <==> j == |ids| - 1 && top.end
    {
      assert LeafPlaced(m', top, q, live, cuts, clens, tlens, ids, j);
    }
    forall x | x in t.pages && x !in ids && x != q ensures Moved(t, t', ids, x) {
      NotChildOfLeaf(t, b, ids[0], x);
    }
  }

  lemma NotChildOfLeaf(t: Tree, b: Bounds, p: PageId, x: PageId)
    requires Inv(t, b) && x in t.pages && p in t.pages && t.pages[p].Leaf?
    ensures t.pages[x].parent != Some(p)
  {
    hide ContentOk;
    assert PageOk(t, b, x);
  }

  lemma LeafRelinked(t: Tree, b: Bounds, m': PageTable, q: PageId, i: nat, ids: seq<PageId>, es: seq<Entry>,
                     live: seq<Rec>, cuts: seq<nat>, clens: seq<int>, tlens: seq<int>)
    requires Inv(t, b) && LeafSplitOf(t, m', q, i, ids, es, live, cuts, clens, tlens)
    ensures Relinked(t, Tree(m', t.root, t.unique), ids)
  {
    hide Splice, ELens, ContentOk, ChildRange;
    OwnEntryApart(t, b, q, i, ids, es);
    var t' := Tree(m', t.root, t.unique);
    forall j | 0 <= j < |ids| ensures PieceLinked(t, t', ids, j) {
      assert LeafPlaced(m', t.pages[ids[0]], q, live, cuts, clens, tlens, ids, j);
    }
  }

  lemma LeafPieceAt(t: Tree, b: Bounds, m': PageTable, q: PageId, i: nat, ids: seq<PageId>, es: seq<Entry>,
                    live: seq<Rec>, cuts: seq<nat>, clens: seq<int>, tlens: seq<int>, j: nat)
    requires LeafSplitOf(t, m', q, i, ids, es, live, cuts, clens, tlens) && j < |ids|
    requires ChunkLengths(CLens(live), cuts, clens) && ChunkLengths(TLens(live), cuts, tlens)
    ensures ids[j] in m' && LeafPiece(m'[ids[j]], live, cuts, j)
  {
    hide Splice, ELens, CLens, TLens;
    assert LeafPlaced(m', t.pages[ids[0]], q, live, cuts, clens, tlens, ids, j);
    assert Start(cuts, j) < cuts[j];
  }

  /** The tree after a leaf split is sound again. */
  lemma LeafSplitInv(t: Tree, b: Bounds, m': PageTable, q: PageId, i: nat, ids: seq<PageId>, es: seq<Entry>,
                     live: seq<Rec>, cuts: seq<nat>, clens: seq<int>, tlens: seq<int>, before: Key)
    requires Inv(t, b) && LeafSplitOf(t, m', q, i, ids, es, live, cuts, clens, tlens)
    requires GreedyCut(live, cuts, clens, tlens, LEAF_LIMITS)
    requires live == Live(t.pages[ids[0]].recs) && |live| > 0
    requires |ids| == |es| && ids[0] in b && PieceSeps(RecKeys(live), cuts, es, before) &&
        EntriesOk(es, b[ids[0]], t.unique)
    ensures Inv(Tree(m', t.root, t.unique), Handed(b, ids, es))
  {
    hide LeafSplitOf, Replaced, Rebounded, EntriesOk, ContentOk, PieceSeps, CLens, TLens, ChunkLengths, Handed,
        ChildRange, Inv, PageOk, GreedyCut, Greedy;
    LeafChunks(live, cuts, clens, tlens);
    LeafSplitIds(t, m', q, i, ids, es, live, cuts, clens, tlens);
    var t', b' := Tree(m', t.root, t.unique), Handed(b, ids, es);
    HandedOk(b, ids, es);
    LeafReplaced(t, b, m', q, i, ids, es, live, cuts, clens, tlens);
    LiveInRange(t, b, ids[0]);
    forall j | 0 <= j < |ids| ensures PageOk(t', b', ids[j]) {
      LeafPieceAt(t, b, m', q, i, ids, es, live, cuts, clens, tlens, j);
      LeafPieceContent(m'[ids[j]], live, cuts, es, before, b[ids[0]], t.unique, j);
      PieceIsLeaf(m'[ids[j]], live, cuts, j);
      PieceLinks(t, b, t', b', q, i, ids, es, j);
    }
    ReplacedInv(t, b, t', b', q, i, ids, es);
  }

  lemma LeafChunks(live: seq<Rec>, cuts: seq<nat>, clens: seq<int>, tlens: seq<int>)
    requires GreedyCut(live, cuts, clens, tlens, LEAF_LIMITS)
    ensures ChunkLengths(CLens(live), cuts, clens) && ChunkLengths(TLens(live), cuts, tlens)
    ensures forall j :: 0 <= j < |cuts| ==> Start(cuts, j) < cuts[j] <= |live|
  {
    forall j | 0 <= j < |cuts| ensures Start(cuts, j) < cuts[j] <= |live| {
      ChunkAt(CLens(live), TLens(live), cuts, LEAF_LIMITS, j);
    }
  }

  lemma LeafSplitIds(t: Tree, m': PageTable, q: PageId, i: nat, ids: seq<PageId>, es: seq<Entry>,
                     live: seq<Rec>, cuts: seq<nat>, clens: seq<int>, tlens: seq<int>)
    requires LeafSplitOf(t, m', q, i, ids, es, live, cuts, clens, tlens)
    ensures |ids| == |es| == |cuts| > 0 && Distinct(ids) && ids[0] in t.pages && t.pages[ids[0]].Leaf?
    ensures IsBranch(t, q) && i < |t.pages[q].entries|
    ensures CutsOk(cuts, |live|) && forall j :: 1 <= j < |ids| ==> ids[j] !in t.pages
  {
  }

  lemma PieceIsLeaf(p: Page, live: seq<Rec>, cuts: seq<nat>, j: nat)
    requires j < |cuts| && LeafPiece(p, live, cuts, j)
    ensures p.Leaf?
  {
  }

  lemma LiveInRange(t: Tree, b: Bounds, p: PageId)
    requires Inv(t, b) && p in t.pages && t.pages[p].Leaf?
    ensures p in b && RecsOk(Live(t.pages[p].recs), b[p], t.unique)
  {
    assert PageOk(t, b, p);
    LiveOk(t.pages[p].recs, b[p], t.unique);
  }

  // ---------- branch splits ----------

  ghost predicate BranchSplitOf(t: Tree, m': PageTable, q: PageId, i: nat, ids: seq<PageId>, es: seq<Entry>,
                                cuts: seq<nat>, lens: seq<int>) {
    && OwnEntry(t, q, i, ids, es) && t.pages[ids[0]].Branch?
    && CutsOk(cuts, |t.pages[ids[0]].entries|) && |cuts| == |lens| == |ids|
    && BranchSplitDone(t.pages, m', q, i, ids, es, cuts, lens)
  }

  lemma BranchReplaced(t: Tree, b: Bounds, m': PageTable, q: PageId, i: nat, ids: seq<PageId>, es: seq<Entry>,
                       cuts: seq<nat>, lens: seq<int>)
    requires Inv(t, b) && BranchSplitOf(t, m', q, i, ids, es, cuts, lens)
    ensures Replaced(t, Tree(m', t.root, t.unique), q, i, ids, es)
  {
    hide Splice, ELens, ContentOk, ChildRange, Inv, Adopted, OthersKept;
    OwnEntryApart(t, b, q, i, ids, es);
    var t' := Tree(m', t.root, t.unique);
    var top := t.pages[ids[0]];
    forall j | 0 <= j < |ids|
      ensures t'.pages[ids[j]].parent == Some(q) && Level(t'.pages[ids[j]]) == Level(top)
      ensures t'.pages[ids[j]].end <==> j == |ids| - 1 && top.end
    {
      assert BranchPlaced(m', top, q, cuts, lens, ids, j);
    }
    forall x | x in t.pages && x !in ids && x != q ensures Moved(t, t', ids, x) {
      BranchMoved(t, b, m', q, i, ids, es, cuts, lens, x);
    }
  }

  lemma BranchMoved(t: Tree, b: Bounds, m': PageTable, q: PageId, i: nat, ids: seq<PageId>, es: seq<Entry>,
                    cuts: seq<nat>, lens: seq<int>, x: PageId)
    requires Inv(t, b) && BranchSplitOf(t, m', q, i, ids, es, cuts, lens)
    requires x in t.pages && x !in ids && x != q
    ensures Moved(t, Tree(m', t.root, t.unique), ids, x)
  {
    hide Splice, ELens, ContentOk, ChildRange;
    var all := t.pages[ids[0]].entries;
    if HasChild(all, x) {
      var k :| 0 <= k < |all| && all[k].child == x;
      Kid(t, b, ids[0], k);
      var j := PieceOf(cuts, |all|, k);
      assert Adopted(t.pages, m', all, cuts, ids, j);
      assert all[k].child == x;
      assert BranchPlaced(m', t.pages[ids[0]], q, cuts, lens, ids, j);
      assert m'[ids[j]].entries[k - Start(cuts, j)].child == x;
    } else {
      NotAChild(t, b, ids[0], x);
    }
  }

  lemma NotAChild(t: Tree, b: Bounds, p: PageId, x: PageId)
    requires Inv(t, b) && x in t.pages && IsBranch(t, p) && !HasChild(t.pages[p].entries, x)
    ensures t.pages[x].parent != Some(p)
  {
    hide ContentOk;
    assert PageOk(t, b, x);
  }

  /** The piece that holds entry k. */
  lemma {:induction false} PieceOf(cuts: seq<nat>, n: nat, k: nat) returns (j: nat)
    requires CutsOk(cuts, n) && k < n
    ensures j < |cuts| && Start(cuts, j) <= k < cuts[j]
  {
    j := |cuts| - 1;
    while Start(cuts, j) > k
      invariant 0 <= j < |cuts| && k < cuts[j]
    {
      j := j - 1;
    }
  }

  lemma BranchRehomed(t: Tree, b: Bounds, m': PageTable, q: PageId, i: nat, ids: seq<PageId>, es: seq<Entry>,
                      cuts: seq<nat>, lens: seq<int>)
    requires BranchSplitOf(t, m', q, i, ids, es, cuts, lens)
    ensures Rehomed(t, Tree(m', t.root, t.unique), ids, cuts, t.pages[ids[0]].entries)
  {
    hide Splice, ELens, OthersKept;
    var all := t.pages[ids[0]].entries;
    forall j, m | 0 <= j < |ids| && Start(cuts, j) <= m < cuts[j] && m < |all|
      ensures all[m].child in m' && m'[all[m].child].parent == Some(ids[j])
    {
      assert Adopted(t.pages, m', all, cuts, ids, j);
    }
  }

  lemma BranchPieceAt(t: Tree, m': PageTable, q: PageId, i: nat, ids: seq<PageId>, es: seq<Entry>,
                      cuts: seq<nat>, lens: seq<int>, j: nat)
    requires BranchSplitOf(t, m', q, i, ids, es, cuts, lens) && j < |ids|
    requires ChunkLengths(ELens(t.pages[ids[0]].entries), cuts, lens)
    ensures ids[j] in m' && BranchPiece(m'[ids[j]], t.pages[ids[0]].level, t.pages[ids[0]].entries, cuts, j)
  {
    hide Splice, ELens, Adopted, OthersKept;
    assert BranchPlaced(m', t.pages[ids[0]], q, cuts, lens, ids, j);
    assert Start(cuts, j) < cuts[j];
  }

  /** The tree after a branch split is sound again. */
  lemma BranchSplitInv(t: Tree, b: Bounds, m': PageTable, q: PageId, i: nat, ids: seq<PageId>, es: seq<Entry>,
                       cuts: seq<nat>, lens: seq<int>, before: Key)
    requires Inv(t, b) && BranchSplitOf(t, m', q, i, ids, es, cuts, lens)
    requires ChunkLengths(ELens(t.pages[ids[0]].entries), cuts, lens)
    requires |ids| == |es| && ids[0] in b
    requires PieceSeps(Seps(t.pages[ids[0]].entries), cuts, es, before) && EntriesOk(es, b[ids[0]], t.unique)
    ensures Inv(Tree(m', t.root, t.unique), Handed(b, ids, es))
  {
    hide BranchSplitOf, Replaced, Rebounded, EntriesOk, ContentOk, PieceSeps, ELens, ChunkLengths, Handed, ChildRange,
        Inv, PageOk, Rehomed, KidsOk, BranchPiece;
    BranchSplitIds(t, m', q, i, ids, es, cuts, lens);
    var t', b' := Tree(m', t.root, t.unique), Handed(b, ids, es);
    HandedOk(b, ids, es);
    BranchReplaced(t, b, m', q, i, ids, es, cuts, lens);
    BranchRehomed(t, b, m', q, i, ids, es, cuts, lens);
    BranchContent(t, b, ids[0]);
    forall j | 0 <= j < |ids| ensures PageOk(t', b', ids[j]) {
      BranchPieceAt(t, m', q, i, ids, es, cuts, lens, j);
      BranchPieceContent(m'[ids[j]], t.pages[ids[0]].entries, cuts, es, before, b[ids[0]], t.unique,
          t.pages[ids[0]].level, j);
      BranchPieceKids(t, b, t', b', q, i, ids, es, cuts, before, j);
      PieceLinks(t, b, t', b', q, i, ids, es, j);
    }
    ReplacedInv(t, b, t', b', q, i, ids, es);
  }

  lemma BranchSplitIds(t: Tree, m': PageTable, q: PageId, i: nat, ids: seq<PageId>, es: seq<Entry>,
                       cuts: seq<nat>, lens: seq<int>)
    requires BranchSplitOf(t, m', q, i, ids, es, cuts, lens)
    ensures |ids| == |es| == |cuts| > 0 && Distinct(ids) && IsBranch(t, ids[0]) && IsBranch(t, q) &&
        i < |t.pages[q].entries|
    ensures CutsOk(cuts, |t.pages[ids[0]].entries|) && forall j :: 1 <= j < |ids| ==> ids[j] !in t.pages
  {
  }

  lemma BranchContent(t: Tree, b: Bounds, p: PageId)
    requires Inv(t, b) && IsBranch(t, p)
    ensures p in b && EntriesOk(t.pages[p].entries, b[p], t.unique) && t.pages[p].level > 0
    ensures t.pages[p].comm == Sum(ELens(t.pages[p].entries))
  {
    assert PageOk(t, b, p);
  }

  lemma PiecesAreBranches(t: Tree, m': PageTable, q: PageId, i: nat, ids: seq<PageId>, es: seq<Entry>,
                          cuts: seq<nat>, lens: seq<int>)
    requires BranchSplitOf(t, m', q, i, ids, es, cuts, lens)
    ensures forall j :: 0 <= j < |ids| ==> ids[j] in m' && m'[ids[j]].Branch?
  {
    hide Splice, ELens, Adopted, OthersKept;
    forall j | 0 <= j < |ids| ensures ids[j] in m' && m'[ids[j]].Branch? {
      assert BranchPlaced(m', t.pages[ids[0]], q, cuts, lens, ids, j);
    }
  }

  /** A branch split leaves the leaves alone. */
  lemma BranchLeavesKept(t: Tree, b: Bounds, m': PageTable, q: PageId, i: nat, ids: seq<PageId>, es: seq<Entry>,
                         cuts: seq<nat>, lens: seq<int>)
    requires Inv(t, b) && BranchSplitOf(t, m', q, i, ids, es, cuts, lens)
    ensures ids[0] in b && LeavesKept(t, Tree(m', t.root, t.unique), b, Handed(b, ids, es))
  {
    hide Splice, ELens, ContentOk, ChildRange;
    OwnEntryApart(t, b, q, i, ids, es);
    HandedOk(b, ids, es);
    var all := t.pages[ids[0]].entries;
    forall x | x in t.pages && t.pages[x].Leaf?
      ensures x in m' && m'[x] == WithParent(t.pages[x], m'[x].parent)
    {
      if HasChild(all, x) {
        var k :| 0 <= k < |all| && all[k].child == x;
        var j := PieceOf(cuts, |all|, k);
        assert Adopted(t.pages, m', all, cuts, ids, j);
        assert all[k].child == x;
      }
    }
    forall x | x in m' && m'[x].Leaf? ensures x in t.pages && t.pages[x].Leaf? {
      PiecesAreBranches(t, m', q, i, ids, es, cuts, lens);
      if HasChild(all, x) {
        var k :| 0 <= k < |all| && all[k].child == x;
        var j := PieceOf(cuts, |all|, k);
        assert Adopted(t.pages, m', all, cuts, ids, j);
        assert all[k].child == x;
      }
    }
  }
}
